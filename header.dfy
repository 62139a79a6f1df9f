/**
 * The header test of `Mork::parseFile`: the first line must read
 * `//`, optional white space, `<!-- <mdb:mork:z v="`, the version, `"/> -->`,
 * and the version must be the one the reader understands.
 */
module Header {
  import opened Base

  /** The Mork version the reader understands (`Mork::VERSION`). */
  const Version: string := "1.4"

  const Opening: string := "<!-- <mdb:mork:z v=\""
  const Closing: string := "\"/> -->"

  /** PCRE's `\s`: space, tab, LF, vertical tab, form feed, CR. */
  predicate IsRegexSpace(c: char) {
    c == ' ' || c == '\t' || c == '\n' || c == 11 as char || c == 12 as char || c == '\r'
  }

  /** `\s*` before a non-space: drop the leading white space. */
  function SkipSpaces(s: string): string {
    if s != [] && IsRegexSpace(s[0]) then SkipSpaces(s[1..]) else s
  }

  /** The text before the first LF, which PCRE's `.` cannot cross. */
  function FirstLine(s: string): (r: string)
    ensures '\n' !in r
  {
    if s == [] || s[0] == '\n' then [] else [s[0]] + FirstLine(s[1..])
  }

  /** `pat` occurs in `t` at `i`. */
  predicate OccursAt(t: string, pat: string, i: nat)
    requires i + |pat| <= |t|
  {
    t[i..i + |pat|] == pat
  }

  /** The last position `i <= k` at which `pat` occurs in `t`, or -1. */
  function LastOccurrence(t: string, pat: string, k: int): (i: int)
    requires k + |pat| <= |t|
    ensures i == -1 || 0 <= i <= k
    ensures i >= 0 ==> OccursAt(t, pat, i)
    ensures forall j :: i < j <= k && j >= 0 ==> !OccursAt(t, pat, j)
    decreases k + 1
  {
    if k < 0 then -1
    else if OccursAt(t, pat, k) then k
    else LastOccurrence(t, pat, k - 1)
  }

  /**
   * The version the header regex captures, or None when it does not match.
   * The capture `(.*)` is greedy, so the version runs to the last closing
   * marker on the line.
   */
  function HeaderVersion(h: string): (r: Option<string>)
    ensures r.Some? ==> '\n' !in r.value
  {
    if |h| < 2 || h[..2] != "//" then None
    else
      var rest := SkipSpaces(h[2..]);
      if |rest| < |Opening| || rest[..|Opening|] != Opening then None
      else
        var line := FirstLine(rest[|Opening|..]);
        var i := LastOccurrence(line, Closing, |line| - |Closing|);
        if i < 0 then None
        else
          assert '\n' !in line[..i] by { forall c | c in line[..i] ensures c in line { } }
          Some(line[..i])
  }

  lemma {:induction false} SkipSpacesPrefix(ws: string, t: string)
    requires forall i :: 0 <= i < |ws| ==> IsRegexSpace(ws[i])
    requires t != [] && !IsRegexSpace(t[0])
    ensures SkipSpaces(ws + t) == t
    decreases |ws|
  {
    if ws == [] {
      assert ws + t == t;
    } else {
      assert (ws + t)[1..] == ws[1..] + t;
      SkipSpacesPrefix(ws[1..], t);
    }
  }

  lemma {:induction false} FirstLineWhole(t: string)
    requires '\n' !in t
    ensures FirstLine(t) == t
    decreases |t|
  {
    if t != [] {
      assert '\n' !in t[1..] by { forall c | c in t[1..] ensures c in t { } }
      FirstLineWhole(t[1..]);
    }
  }

  /** Every byte of `ws` is white space. */
  predicate Spaces(ws: string) {
    forall i :: 0 <= i < |ws| ==> IsRegexSpace(ws[i])
  }

  /** A first line of the shape the header regex accepts, followed by anything. */
  function HeaderText(ws: string, v: string, rest: string): string {
    "//" + ws + Opening + v + Closing + rest
  }

  /** `SkipSpaces` drops a run of white space and keeps the rest as it was. */
  lemma {:induction false} SkipSpacesSuffix(s: string)
    ensures |SkipSpaces(s)| <= |s|
    ensures s == s[..|s| - |SkipSpaces(s)|] + SkipSpaces(s)
    ensures Spaces(s[..|s| - |SkipSpaces(s)|])
    decreases |s|
  {
    if s != [] && IsRegexSpace(s[0]) {
      SkipSpacesSuffix(s[1..]);
      var k := |s| - |SkipSpaces(s)|;
      assert s[..k] == [s[0]] + s[1..][..k - 1];
      assert s == [s[0]] + s[1..];
    }
  }

  /** `FirstLine` is a prefix of its argument. */
  lemma {:induction false} FirstLinePrefix(s: string)
    ensures |FirstLine(s)| <= |s| && s[..|FirstLine(s)|] == FirstLine(s)
    decreases |s|
  {
    if s != [] && s[0] != '\n' {
      FirstLinePrefix(s[1..]);
      assert s[..|FirstLine(s)|] == [s[0]] + s[1..][..|FirstLine(s[1..])|];
    }
  }

  /** The line up to its last closing marker, the marker, and what follows. */
  lemma LineShape(tail: string, i: int)
    requires i == LastOccurrence(FirstLine(tail), Closing, |FirstLine(tail)| - |Closing|) >= 0
    ensures i + |Closing| <= |tail|
    ensures tail == FirstLine(tail)[..i] + Closing + tail[i + |Closing|..]
  {
    var line := FirstLine(tail);
    FirstLinePrefix(tail);
    var pre := tail[..|line|];
    assert pre == line;
    assert line[i..i + |Closing|] == Closing;
    assert tail[..i] == line[..i] by {
      assert tail[..i] == pre[..i];
    }
    assert tail[i..i + |Closing|] == Closing by {
      assert tail[i..i + |Closing|] == pre[i..i + |Closing|];
    }
    assert tail == tail[..i] + tail[i..i + |Closing|] + tail[i + |Closing|..];
  }

  /** Gluing the pieces of an accepted header back together. */
  lemma Assemble(h: string, ws: string, rest: string, v: string, more: string)
    requires |h| >= 2 && h[..2] == "//" && h[2..] == ws + rest
    requires rest == Opening + (v + Closing + more)
    ensures h == HeaderText(ws, v, more)
  {
    assert h == h[..2] + h[2..];
  }

  /**
   * Only a header of the accepted shape is read: whenever a version comes
   * back, the text is `//`, white space, the opening marker, that version,
   * the closing marker and the rest.
   */
  lemma HeaderVersionShape(h: string)
    ensures HeaderVersion(h).Some? ==>
              exists ws, rest :: Spaces(ws) && h == HeaderText(ws, HeaderVersion(h).value, rest)
  {
    var r := HeaderVersion(h);
    if r.Some? {
      var s2 := h[2..];
      var rest := SkipSpaces(s2);
      var tail := rest[|Opening|..];
      var line := FirstLine(tail);
      var i := LastOccurrence(line, Closing, |line| - |Closing|);
      assert r.value == line[..i];
      LineShape(tail, i);
      var more := tail[i + |Closing|..];
      assert rest == Opening + (r.value + Closing + more) by {
        assert rest == Opening + tail;
      }
      SkipSpacesSuffix(s2);
      var ws := s2[..|s2| - |rest|];
      Assemble(h, ws, rest, r.value, more);
    }
  }

  lemma MarkerFacts()
    ensures |Opening| == 20 && Opening[0] == '<' && !IsRegexSpace(Opening[0])
    ensures |Closing| == 7 && '\n' !in Closing
  {
  }

  /**
   * The header a Mork writer emits is accepted, and the version it names is
   * read back, whatever white space follows `//`.
   */
  lemma HeaderRoundTrip(ws: string, v: string)
    requires forall i :: 0 <= i < |ws| ==> IsRegexSpace(ws[i])
    requires '\n' !in v
    ensures HeaderVersion("//" + ws + Opening + v + Closing) == Some(v)
  {
    MarkerFacts();
    var body := Opening + (v + Closing);
    var h := "//" + ws + Opening + v + Closing;
    assert h == "//" + (ws + body);
    assert h[..2] == "//";
    assert h[2..] == ws + body;
    SkipSpacesPrefix(ws, body);
    assert body[..|Opening|] == Opening;
    var tail := body[|Opening|..];
    assert tail == v + Closing;
    assert '\n' !in tail;
    FirstLineWhole(tail);
    assert tail[|v|..] == Closing;
    assert OccursAt(tail, Closing, |v|);
    assert tail[..|v|] == v;
  }
}
