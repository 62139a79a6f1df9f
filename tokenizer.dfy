/**
 * The byte-wise tokenizer `Mork::readUntil`: it reads the file one byte at a
 * time into a buffer and stops at the first candidate token that ends the
 * buffer and is not preceded there by the escape character.
 */
module Tokenizer {
  import opened Base

  /** The 22 hex digit characters that the shorthand `HEX` stands for. */
  const HexDigitTokens: seq<string> :=
    ["0", "1", "2", "3", "4", "5", "6", "7", "8", "9",
     "A", "B", "C", "D", "E", "F", "a", "b", "c", "d", "e", "f"]

  /** The candidate list after expanding `HEX`; the shorthand itself stays a candidate. */
  function Expand(toks: seq<string>): seq<string> {
    if "HEX" in toks then toks + HexDigitTokens else toks
  }

  /** The bytes PHP's `trim` removes: space, tab, LF, CR, NUL and vertical tab. */
  predicate IsTrimSpace(c: char) {
    c == ' ' || c == '\t' || c == '\n' || c == '\r' || c == '\0' || c == 11 as char
  }

  function TrimLeft(s: string): string
    decreases |s|
  {
    if s != [] && IsTrimSpace(s[0]) then TrimLeft(s[1..]) else s
  }

  function TrimRight(s: string): string
    decreases |s|
  {
    if s != [] && IsTrimSpace(s[|s| - 1]) then TrimRight(s[..|s| - 1]) else s
  }

  /** PHP's `trim`. */
  function Trim(s: string): string {
    TrimRight(TrimLeft(s))
  }

  lemma {:induction false} TrimLeftFacts(s: string)
    ensures var r := TrimLeft(s); |r| <= |s| && r == s[|s| - |r|..] && (r == [] || !IsTrimSpace(r[0]))
    decreases |s|
  {
    if s != [] && IsTrimSpace(s[0]) {
      TrimLeftFacts(s[1..]);
    }
  }

  lemma {:induction false} TrimRightFacts(s: string)
    ensures var r := TrimRight(s); |r| <= |s| && r == s[..|r|] && (r == [] || !IsTrimSpace(r[|r| - 1]))
    decreases |s|
  {
    if s != [] && IsTrimSpace(s[|s| - 1]) {
      TrimRightFacts(s[..|s| - 1]);
    }
  }

  /** Neither end of a trimmed string is a trim byte. */
  lemma TrimmedEnds(s: string)
    ensures var r := Trim(s); r == [] || (!IsTrimSpace(r[0]) && !IsTrimSpace(r[|r| - 1]))
  {
    var l := TrimLeft(s);
    TrimLeftFacts(s);
    TrimRightFacts(l);
  }

  /** A string whose ends are not trim bytes is left alone by `trim`. */
  lemma TrimNoop(s: string)
    requires s == [] || (!IsTrimSpace(s[0]) && !IsTrimSpace(s[|s| - 1]))
    ensures Trim(s) == s
  {
  }

  /**
   * PHP's `str_replace(p, '', s)`: removes the occurrences of `p` found
   * left to right without overlap; an empty pattern is ignored.
   */
  function RemoveAll(s: string, p: string): string
    decreases |s|
  {
    if |p| == 0 || |s| < |p| then s
    else if s[..|p|] == p then RemoveAll(s[|p|..], p)
    else [s[0]] + RemoveAll(s[1..], p)
  }

  /** Removing a pattern introduces no byte: a byte absent from `s` stays absent. */
  lemma {:induction false} RemoveAllKeepsAbsent(s: string, p: string, c: char)
    requires |p| > 0 && c !in s
    ensures c !in RemoveAll(s, p)
    decreases |s|
  {
    if |s| >= |p| {
      if s[..|p|] == p {
        assert c !in s[|p|..] by { forall x | x in s[|p|..] ensures x in s { } }
        RemoveAllKeepsAbsent(s[|p|..], p, c);
      } else {
        assert c !in s[1..] by { forall x | x in s[1..] ensures x in s { } }
        assert s[0] in s;
        RemoveAllKeepsAbsent(s[1..], p, c);
      }
    }
  }

  /** Removing a one-byte pattern leaves no such byte. */
  lemma {:induction false} RemoveAllByte(s: string, c: char)
    ensures c !in RemoveAll(s, [c])
    decreases |s|
  {
    if |s| >= 1 {
      if s[..1] == [c] {
        RemoveAllByte(s[1..], c);
      } else {
        assert s[0] != c by { assert s[..1][0] == s[0]; }
        RemoveAllByte(s[1..], c);
      }
    }
  }

  /** `$strings2ignore`: the line continuations escape+CR and escape+LF, then LF and CR. */
  const Strings2Ignore: seq<string> := [[Esc, '\r'], [Esc, '\n'], "\n", "\r"]

  /** PHP's `str_replace(pats, '', s)` with a list of patterns: each one removed in turn. */
  function RemoveEach(s: string, pats: seq<string>): string
    decreases |pats|
  {
    if pats == [] then s else RemoveEach(RemoveAll(s, pats[0]), pats[1..])
  }

  /** Removes the line continuations and line breaks of `$strings2ignore`, in that order. */
  function RemoveBreaks(s: string): string {
    RemoveEach(s, Strings2Ignore)
  }

  /** `RemoveBreaks` as the four removals, one after the other. */
  lemma RemoveBreaksSteps(s: string)
    ensures RemoveBreaks(s) == RemoveAll(RemoveAll(RemoveAll(RemoveAll(s, [Esc, '\r']), [Esc, '\n']), "\n"), "\r")
  {
    var p := Strings2Ignore;
    var a := RemoveAll(s, p[0]);
    var b := RemoveAll(a, p[1]);
    var c := RemoveAll(b, p[2]);
    var d := RemoveAll(c, p[3]);
    assert p[1..][1..][1..][1..] == [];
    assert RemoveEach(c, p[1..][1..][1..]) == d;
    assert RemoveEach(b, p[1..][1..]) == d;
    assert RemoveEach(a, p[1..]) == d;
  }

  /** No CR or LF survives `RemoveBreaks`. */
  lemma RemoveBreaksNoLineBreak(s: string)
    ensures '\n' !in RemoveBreaks(s) && '\r' !in RemoveBreaks(s)
  {
    RemoveBreaksSteps(s);
    var a := RemoveAll(s, [Esc, '\r']);
    var b := RemoveAll(a, [Esc, '\n']);
    var c := RemoveAll(b, "\n");
    RemoveAllByte(b, '\n');
    RemoveAllKeepsAbsent(c, "\r", '\n');
    RemoveAllByte(c, '\r');
  }

  /** A pattern whose last byte does not occur is never found. */
  lemma {:induction false} RemoveAllAbsent(s: string, p: string)
    requires |p| > 0 && p[|p| - 1] !in s
    ensures RemoveAll(s, p) == s
    decreases |s|
  {
    if |s| >= |p| {
      assert s[..|p|] != p by {
        assert s[..|p|][|p| - 1] == s[|p| - 1];
      }
      assert p[|p| - 1] !in s[1..] by { forall x | x in s[1..] ensures x in s { } }
      RemoveAllAbsent(s[1..], p);
    }
  }

  /** Text without CR and LF has nothing to strip. */
  lemma RemoveBreaksNoop(s: string)
    requires '\n' !in s && '\r' !in s
    ensures RemoveBreaks(s) == s
  {
    RemoveBreaksSteps(s);
    RemoveAllAbsent(s, [Esc, '\r']);
    RemoveAllAbsent(s, [Esc, '\n']);
    RemoveAllAbsent(s, "\n");
    RemoveAllAbsent(s, "\r");
  }

  /** A single-line text with no blank at either end comes back from `readUntil` as it is. */
  lemma CleanNoop(s: string)
    requires '\n' !in s && '\r' !in s
    requires s == [] || (!IsTrimSpace(s[0]) && !IsTrimSpace(s[|s| - 1]))
    ensures Clean(s) == s
  {
    TrimNoop(s);
    RemoveBreaksNoop(s);
  }

  /** The text `readUntil` hands back: trimmed, then stripped of line breaks. */
  function Clean(s: string): string {
    RemoveBreaks(Trim(s))
  }

  /** The text `readUntil` hands back is a single line. */
  lemma CleanOneLine(s: string)
    ensures '\n' !in Clean(s) && '\r' !in Clean(s)
  {
    RemoveBreaksNoLineBreak(Trim(s));
  }

  /** The candidate at `q` is not preceded, inside the buffer, by the escape character. */
  predicate NotEscaped(buf: string, q: nat)
    requires q <= |buf|
  {
    q == 0 || buf[q - 1] != Esc
  }

  /** The regex matches at `q`: the rest of the buffer is a candidate and is not escaped. */
  predicate MatchAt(buf: string, toks: seq<string>, q: nat)
    requires q <= |buf|
  {
    buf[q..] in toks && NotEscaped(buf, q)
  }

  /**
   * The regex test on the buffer, as a suffix test: the leftmost position
   * from `q` at which a candidate ends the buffer unescaped.  Leftmost means
   * the longest such candidate.
   */
  function SuffixMatch(buf: string, toks: seq<string>, q: nat): (r: Option<string>)
    requires q <= |buf|
    ensures r.Some? ==> 0 < |r.value| <= |buf| - q
    decreases |buf| - q
  {
    if q == |buf| then None
    else if MatchAt(buf, toks, q) then Some(buf[q..])
    else SuffixMatch(buf, toks, q + 1)
  }

  /**
   * The regex test finds the leftmost match: no candidate matches before
   * the one it returns, and none at all when it returns nothing.
   */
  lemma {:induction false} SuffixMatchLeftmost(buf: string, toks: seq<string>, q: nat)
    requires q <= |buf|
    ensures var r := SuffixMatch(buf, toks, q);
            forall k {:trigger MatchAt(buf, toks, k)} ::
              q <= k < |buf| - (if r.Some? then |r.value| else 0) ==> !MatchAt(buf, toks, k)
    decreases |buf| - q
  {
    if q < |buf| && !MatchAt(buf, toks, q) {
      SuffixMatchLeftmost(buf, toks, q + 1);
    }
  }

  /** A match found by the regex test is a candidate ending the buffer, unescaped. */
  lemma {:induction false} SuffixMatchFound(buf: string, toks: seq<string>, q: nat)
    requires q <= |buf|
    ensures var r := SuffixMatch(buf, toks, q);
            r.Some? ==> r.value == buf[|buf| - |r.value|..] && MatchAt(buf, toks, |buf| - |r.value|)
    decreases |buf| - q
  {
    if q < |buf| && !MatchAt(buf, toks, q) {
      SuffixMatchFound(buf, toks, q + 1);
    }
  }

  /** The outcome of one `readUntil` call: the token (None for `false` at end of file), the text before it, the new cursor. */
  datatype Read = Read(tok: Option<string>, text: string, pos: nat)

  /** No candidate ends the buffer `inp[start..e]`. */
  predicate NoMatch(inp: string, start: nat, e: nat, toks: seq<string>)
    requires start <= e <= |inp|
  {
    SuffixMatch(inp[start..e], toks, 0).None?
  }

  /**
   * The byte loop of `readUntil`: `inp[start..end]` is in the buffer and
   * has not matched; read the next byte and test the buffer again.  On a
   * match the text is the cleaned bytes before the token.
   */
  function ReadFrom(inp: string, start: nat, end: nat, cands: seq<string>): (r: Read)
    requires start <= end <= |inp|
    ensures end <= r.pos <= |inp|
    ensures r.tok.None? ==> r.pos == |inp| && r.text == []
    ensures r.tok.Some? ==> end < r.pos && 0 < |r.tok.value| && start + |r.tok.value| <= r.pos
    decreases |inp| - end
  {
    if end == |inp| then Read(None, [], |inp|)
    else
      var buf := inp[start..end + 1];
      match SuffixMatch(buf, cands, 0)
      case Some(t) =>
        Read(Some(t), Clean(buf[..|buf| - |t|]), end + 1)
      case None => ReadFrom(inp, start, end + 1, cands)
  }

  /** The token of the byte loop is a candidate, and the bytes just read are that token. */
  lemma {:induction false} ReadFromFound(inp: string, start: nat, end: nat, cands: seq<string>)
    requires start <= end <= |inp|
    ensures var r := ReadFrom(inp, start, end, cands);
            r.tok.Some? ==> r.tok.value in cands && inp[r.pos - |r.tok.value|..r.pos] == r.tok.value
    decreases |inp| - end
  {
    if end < |inp| {
      var buf := inp[start..end + 1];
      var m := SuffixMatch(buf, cands, 0);
      if m.Some? {
        SuffixMatchFound(buf, cands, 0);
        assert buf[|buf| - |m.value|..] == inp[end + 1 - |m.value|..end + 1];
        assert ReadFrom(inp, start, end, cands).pos == end + 1;
      } else {
        ReadFromFound(inp, start, end + 1, cands);
      }
    }
  }

  /** The token of the byte loop is the regex test's answer on the whole buffer. */
  lemma {:induction false} ReadFromMatch(inp: string, start: nat, end: nat, cands: seq<string>)
    requires start <= end <= |inp|
    ensures var r := ReadFrom(inp, start, end, cands);
            r.tok.Some? ==> SuffixMatch(inp[start..r.pos], cands, 0) == r.tok
    decreases |inp| - end
  {
    if end < |inp| {
      if SuffixMatch(inp[start..end + 1], cands, 0).Some? {
        assert ReadFrom(inp, start, end, cands).pos == end + 1;
      } else {
        ReadFromMatch(inp, start, end + 1, cands);
      }
    }
  }

  /** The text of the byte loop is the cleaned bytes before the token. */
  lemma {:induction false} ReadFromText(inp: string, start: nat, end: nat, cands: seq<string>)
    requires start <= end <= |inp|
    ensures var r := ReadFrom(inp, start, end, cands);
            r.tok.Some? ==> r.text == Clean(inp[start..r.pos - |r.tok.value|])
    decreases |inp| - end
  {
    if end < |inp| {
      var buf := inp[start..end + 1];
      var m := SuffixMatch(buf, cands, 0);
      if m.Some? {
        var k := |buf| - |m.value|;
        assert 0 <= k && buf[..k] == inp[start..start + k];
        assert ReadFrom(inp, start, end, cands) == Read(m, Clean(buf[..k]), end + 1);
      } else {
        ReadFromText(inp, start, end + 1, cands);
      }
    }
  }

  /** No buffer shorter than the one the byte loop stops at matched. */
  lemma {:induction false} ReadFromFirst(inp: string, start: nat, end: nat, cands: seq<string>)
    requires start <= end <= |inp|
    ensures var r := ReadFrom(inp, start, end, cands);
            forall e {:trigger NoMatch(inp, start, e, cands)} :: end < e <= |inp| && (r.tok.None? || e < r.pos) ==> NoMatch(inp, start, e, cands)
    decreases |inp| - end
  {
    if end < |inp| && SuffixMatch(inp[start..end + 1], cands, 0).None? {
      assert NoMatch(inp, start, end + 1, cands);
      ReadFromFirst(inp, start, end + 1, cands);
    }
  }

  /** The token of the byte loop is not preceded by the escape character within the buffer. */
  lemma {:induction false} ReadFromUnescaped(inp: string, start: nat, end: nat, cands: seq<string>)
    requires start <= end <= |inp|
    ensures var r := ReadFrom(inp, start, end, cands);
            r.tok.Some? ==> r.pos - |r.tok.value| == start || inp[r.pos - |r.tok.value| - 1] != Esc
    decreases |inp| - end
  {
    if end < |inp| {
      var buf := inp[start..end + 1];
      var m := SuffixMatch(buf, cands, 0);
      if m.Some? {
        var q := |buf| - |m.value|;
        SuffixMatchFound(buf, cands, 0);
        assert MatchAt(buf, cands, q);
        if q > 0 {
          assert buf[q - 1] == inp[start + q - 1];
        }
        assert ReadFrom(inp, start, end, cands).pos == end + 1;
      } else {
        ReadFromUnescaped(inp, start, end + 1, cands);
      }
    }
  }

  /** `readUntil(text, toks...)`: the candidates are `toks` with `HEX` expanded. */
  function ReadToken(inp: string, pos: nat, toks: seq<string>): (r: Read)
    requires pos <= |inp|
    ensures pos <= r.pos <= |inp|
    ensures r.tok.None? ==> r.pos == |inp| && r.text == []
    ensures r.tok.Some? ==> pos < r.pos && 0 < |r.tok.value| <= r.pos - pos
    ensures r.tok.Some? ==> inp[r.pos - 1] == r.tok.value[|r.tok.value| - 1]
  {
    var r := ReadFrom(inp, pos, pos, Expand(toks));
    if r.tok.Some? then
      ReadFromFound(inp, pos, pos, Expand(toks));
      var t := r.tok.value;
      assert inp[r.pos - |t|..r.pos][|t| - 1] == inp[r.pos - 1];
      r
    else r
  }

  /**
   * The token `readUntil` returns is one of the candidates, and the bytes
   * just read end with it.
   */
  lemma ReadTokenFound(inp: string, pos: nat, toks: seq<string>)
    requires pos <= |inp|
    ensures var r := ReadToken(inp, pos, toks);
            r.tok.Some? ==> r.tok.value in Expand(toks) && inp[r.pos - |r.tok.value|..r.pos] == r.tok.value
  {
    ReadFromFound(inp, pos, pos, Expand(toks));
  }

  /**
   * The token `readUntil` returns is not preceded by the escape character
   * among the bytes read in this call; a token at the start of those bytes
   * is never escaped.
   */
  lemma ReadTokenUnescaped(inp: string, pos: nat, toks: seq<string>)
    requires pos <= |inp|
    ensures var r := ReadToken(inp, pos, toks);
            r.tok.Some? ==> r.pos - |r.tok.value| == pos || inp[r.pos - |r.tok.value| - 1] != Esc
  {
    ReadFromUnescaped(inp, pos, pos, Expand(toks));
  }

  /**
   * No longer candidate ends the bytes `readUntil` read: the regex's
   * leftmost match is the longest one.
   */
  lemma ReadTokenLongest(inp: string, pos: nat, toks: seq<string>)
    requires pos <= |inp|
    ensures var r := ReadToken(inp, pos, toks);
            r.tok.Some? ==>
              forall k {:trigger MatchAt(inp[pos..r.pos], Expand(toks), k)} ::
                0 <= k < r.pos - pos - |r.tok.value| ==> !MatchAt(inp[pos..r.pos], Expand(toks), k)
  {
    var cands := Expand(toks);
    var r := ReadFrom(inp, pos, pos, cands);
    assert ReadToken(inp, pos, toks) == r;
    ReadFromMatch(inp, pos, pos, cands);
    if r.tok.Some? {
      assert SuffixMatch(inp[pos..r.pos], cands, 0) == r.tok;
      SuffixMatchLeftmost(inp[pos..r.pos], cands, 0);
    }
  }

  /** The text `readUntil` returns is what came before the token, trimmed and without CR/LF. */
  lemma ReadTokenText(inp: string, pos: nat, toks: seq<string>)
    requires pos <= |inp|
    ensures var r := ReadToken(inp, pos, toks);
            r.tok.Some? ==> r.text == Clean(inp[pos..r.pos - |r.tok.value|])
  {
    ReadFromText(inp, pos, pos, Expand(toks));
  }

  /**
   * `readUntil` stops at the first cursor position where the buffer
   * matches: no earlier one did.  At end of file the result is `false`
   * (None) with the whole input consumed, and no position matched.
   */
  lemma ReadTokenFirst(inp: string, pos: nat, toks: seq<string>)
    requires pos <= |inp|
    ensures var r := ReadToken(inp, pos, toks);
            forall e {:trigger NoMatch(inp, pos, e, Expand(toks))} ::
              pos < e <= |inp| && (r.tok.None? || e < r.pos) ==> NoMatch(inp, pos, e, Expand(toks))
  {
    ReadFromFirst(inp, pos, pos, Expand(toks));
  }

  /** The text `readUntil` returns holds no CR or LF. */
  lemma ReadTokenOneLine(inp: string, pos: nat, toks: seq<string>)
    requires pos <= |inp|
    ensures '\n' !in ReadToken(inp, pos, toks).text && '\r' !in ReadToken(inp, pos, toks).text
  {
    var r := ReadFrom(inp, pos, pos, Expand(toks));
    assert ReadToken(inp, pos, toks) == r;
    ReadFromText(inp, pos, pos, Expand(toks));
    if r.tok.Some? {
      CleanOneLine(inp[pos..r.pos - |r.tok.value|]);
    }
  }

  /** Every candidate is one byte long. */
  ghost predicate SingleBytes(cands: seq<string>) {
    forall t :: t in cands ==> |t| == 1
  }

  /** With one-byte candidates only the last byte of the buffer can match. */
  lemma {:induction false} SuffixMatchSingle(buf: string, cands: seq<string>, q: nat)
    requires SingleBytes(cands) && q < |buf|
    ensures var b := buf[|buf| - 1];
            SuffixMatch(buf, cands, q) == if [b] in cands && NotEscaped(buf, |buf| - 1) then Some([b]) else None
    decreases |buf| - q
  {
    if q < |buf| - 1 {
      assert !MatchAt(buf, cands, q) by {
        assert |buf[q..]| > 1;
      }
      SuffixMatchSingle(buf, cands, q + 1);
    } else {
      assert buf[q..] == [buf[q]];
      assert SuffixMatch(buf, cands, |buf|) == None;
    }
  }

  /**
   * The byte loop stops at `stop`: no buffer ending before it matched, and
   * the buffer up to it does.
   */
  lemma {:induction false} ReadFromStopsAt(inp: string, start: nat, end: nat, cands: seq<string>, stop: nat, t: string)
    requires start <= end <= stop < |inp|
    requires forall e {:trigger NoMatch(inp, start, e, cands)} :: end < e <= stop ==> NoMatch(inp, start, e, cands)
    requires SuffixMatch(inp[start..stop + 1], cands, 0) == Some(t)
    ensures ReadFrom(inp, start, end, cands) == Read(Some(t), Clean(inp[start..stop + 1 - |t|]), stop + 1)
    decreases stop - end
  {
    if end < stop {
      assert NoMatch(inp, start, end + 1, cands);
      ReadFromStopsAt(inp, start, end + 1, cands, stop, t);
    } else {
      var buf := inp[start..stop + 1];
      assert buf[..|buf| - |t|] == inp[start..stop + 1 - |t|];
    }
  }

  /** With one-byte candidates a buffer whose last byte is no candidate does not match. */
  lemma NoMatchSingle(inp: string, start: nat, e: nat, cands: seq<string>)
    requires SingleBytes(cands) && start < e <= |inp| && [inp[e - 1]] !in cands
    ensures NoMatch(inp, start, e, cands)
  {
    var buf := inp[start..e];
    SuffixMatchSingle(buf, cands, 0);
    assert buf[|buf| - 1] == inp[e - 1];
  }

  /** With one-byte candidates a buffer ending in an unescaped candidate byte matches that byte. */
  lemma MatchSingle(inp: string, start: nat, e: nat, cands: seq<string>)
    requires SingleBytes(cands) && start < e <= |inp| && [inp[e - 1]] in cands
    requires e - 1 == start || inp[e - 2] != Esc
    ensures SuffixMatch(inp[start..e], cands, 0) == Some([inp[e - 1]])
  {
    var buf := inp[start..e];
    SuffixMatchSingle(buf, cands, 0);
    assert buf[|buf| - 1] == inp[e - 1];
    assert |buf| > 1 ==> buf[|buf| - 2] == inp[e - 2];
  }

  /**
   * With one-byte candidates: when no byte from `pos` up to `stop` is a
   * candidate and the byte at `stop` is an unescaped one, the byte loop
   * stops after `stop` with the cleaned bytes before it.
   */
  lemma ReadToByte(inp: string, pos: nat, cands: seq<string>, stop: nat)
    requires SingleBytes(cands) && pos <= stop < |inp|
    requires forall i :: pos <= i < stop ==> [inp[i]] !in cands
    requires [inp[stop]] in cands && (stop == pos || inp[stop - 1] != Esc)
    ensures ReadFrom(inp, pos, pos, cands) == Read(Some([inp[stop]]), Clean(inp[pos..stop]), stop + 1)
  {
    forall e | pos < e <= stop
      ensures NoMatch(inp, pos, e, cands)
    {
      NoMatchSingle(inp, pos, e, cands);
    }
    MatchSingle(inp, pos, stop + 1, cands);
    ReadFromStopsAt(inp, pos, pos, cands, stop, [inp[stop]]);
  }

  /**
   * A word `readUntil` hands back unchanged: none of its bytes is one of the
   * one-byte candidates `toks`, it is a single line, no trim byte is at
   * either end and it does not end in the escape character.
   */
  ghost predicate Word(w: string, toks: seq<string>) {
    (forall i :: 0 <= i < |w| ==> [w[i]] !in toks && w[i] != '\n' && w[i] != '\r')
    && (w == [] || (!IsTrimSpace(w[0]) && !IsTrimSpace(w[|w| - 1]) && w[|w| - 1] != Esc))
  }

  /**
   * `readUntil` with one-byte candidates, on a word followed by the
   * candidate `c`: the token is `c`, the text is the word itself and the
   * cursor ends just after `c`.
   */
  lemma ReadTokenWord(inp: string, pos: nat, toks: seq<string>, w: string, c: char)
    requires "HEX" !in toks && SingleBytes(toks) && Word(w, toks) && [c] in toks
    requires pos + |w| < |inp| && inp[pos + |w|] == c
    requires forall i :: 0 <= i < |w| ==> inp[pos + i] == w[i]
    ensures ReadToken(inp, pos, toks) == Read(Some([c]), w, pos + |w| + 1)
  {
    var stop := pos + |w|;
    forall i | pos <= i < stop
      ensures [inp[i]] !in toks
    {
      assert inp[i] == w[i - pos];
    }
    ReadToByte(inp, pos, toks, stop);
    assert inp[pos..stop] == w;
    CleanNoop(w);
  }

  /**
   * A candidate right at the cursor (a hex digit too, when `toks` holds
   * `HEX`) is the token, and the text before it is empty.
   */
  lemma ReadTokenAtCursor(inp: string, pos: nat, toks: seq<string>)
    requires pos < |inp| && [inp[pos]] in Expand(toks)
    ensures ReadToken(inp, pos, toks) == Read(Some([inp[pos]]), "", pos + 1)
  {
    var buf := inp[pos..pos + 1];
    assert buf == [inp[pos]];
    assert buf[0..] in Expand(toks);
    assert MatchAt(buf, Expand(toks), 0);
    CleanNoop([]);
  }
}
