/**
 * The escape codec of `Mork::unescape`: `$hh` byte escapes first, then
 * escape-character pairs.  Strings are byte strings; a byte is a `char` below 256.
 */
module Codec {
  import opened Base

  predicate IsHexDigit(c: char) {
    ('0' <= c <= '9') || ('A' <= c <= 'F') || ('a' <= c <= 'f')
  }

  function HexValue(c: char): (v: nat)
    requires IsHexDigit(c)
    ensures v < 16
  {
    if '0' <= c <= '9' then c as int - '0' as int
    else if 'A' <= c <= 'F' then c as int - 'A' as int + 10
    else c as int - 'a' as int + 10
  }

  /** The byte written as the two hex digits `hi lo` (PHP's `chr(hexdec(..))`). */
  function HexByte(hi: char, lo: char): (b: char)
    requires IsHexDigit(hi) && IsHexDigit(lo)
    ensures b as int < 256
  {
    (16 * HexValue(hi) + HexValue(lo)) as char
  }

  /** True when a `$hh` escape starts at the head of `s`. */
  predicate HexEscapeAt(s: string) {
    |s| >= 3 && s[0] == '$' && IsHexDigit(s[1]) && IsHexDigit(s[2])
  }

  /**
   * First pass: every `$hh` (either case) whose `$` does not follow the escape
   * character becomes one byte.  `afterEsc` says whether the byte before `s`
   * in the original text was the escape character (the regex lookbehind).
   */
  function HexPass(s: string, afterEsc: bool): (r: string)
    ensures |r| <= |s|
    decreases |s|
  {
    if s == [] then []
    else if !afterEsc && HexEscapeAt(s) then [HexByte(s[1], s[2])] + HexPass(s[3..], false)
    else [s[0]] + HexPass(s[1..], s[0] == Esc)
  }

  /**
   * Second pass: every escape character followed by a byte other than a line
   * feed (the regex `.` does not match it) is replaced by that byte.
   */
  function EscPass(s: string): (r: string)
    ensures |r| <= |s|
    decreases |s|
  {
    if s == [] then []
    else if |s| >= 2 && s[0] == Esc && s[1] != '\n' then [s[1]] + EscPass(s[2..])
    else [s[0]] + EscPass(s[1..])
  }

  /** `Mork::unescape`: decoding never lengthens the text. */
  function Unescape(s: string): (r: string)
    ensures |r| <= |s|
  {
    EscPass(HexPass(s, false))
  }

  /** Text that holds neither a `$` nor the escape character. */
  predicate Plain(s: string) {
    '$' !in s && Esc !in s
  }

  lemma {:induction false} HexPassPlain(s: string, b: bool)
    requires Plain(s)
    ensures HexPass(s, b) == s
    decreases |s|
  {
    if s != [] {
      assert s[0] in s;
      assert Plain(s[1..]) by {
        forall c | c in s[1..] ensures c in s { }
      }
      HexPassPlain(s[1..], s[0] == Esc);
    }
  }

  lemma {:induction false} EscPassPlain(s: string)
    requires Esc !in s
    ensures EscPass(s) == s
    decreases |s|
  {
    if s != [] {
      assert s[0] in s;
      assert Esc !in s[1..] by {
        forall c | c in s[1..] ensures c in s { }
      }
      EscPassPlain(s[1..]);
    }
  }

  /** Text with no `$` and no escape character comes out of `unescape` unchanged. */
  lemma UnescapePlain(s: string)
    requires Plain(s)
    ensures Unescape(s) == s
  {
    HexPassPlain(s, false);
    EscPassPlain(s);
  }

  /** A lone `$hh` escape decodes to the byte 0xhh. */
  lemma UnescapeHexEscape(hi: char, lo: char)
    requires IsHexDigit(hi) && IsHexDigit(lo)
    ensures Unescape(['$', hi, lo]) == [HexByte(hi, lo)]
  {
    var s := ['$', hi, lo];
    assert HexEscapeAt(s);
    assert s[3..] == [];
    assert HexPass(s, false) == [HexByte(hi, lo)];
    var b := [HexByte(hi, lo)];
    assert b[1..] == [];
    assert EscPass(b) == b;
  }

  /** A plain prefix passes through the hex pass and leaves the lookbehind clear. */
  lemma {:induction false} HexPassPlainPrefix(a: string, r: string)
    requires Plain(a)
    ensures HexPass(a + r, false) == a + HexPass(r, false)
    decreases |a|
  {
    if a != [] {
      assert a[0] in a;
      assert Plain(a[1..]) by {
        forall c | c in a[1..] ensures c in a { }
      }
      var s := a + r;
      assert s[0] == a[0] && s[1..] == a[1..] + r;
      assert !HexEscapeAt(s);
      HexPassPlainPrefix(a[1..], r);
      assert HexPass(s, false) == [a[0]] + (a[1..] + HexPass(r, false));
      assert a == [a[0]] + a[1..];
    } else {
      assert a + r == r;
    }
  }

  /** A prefix free of the escape character passes through the escape pass. */
  lemma {:induction false} EscPassPlainPrefix(a: string, r: string)
    requires Esc !in a
    ensures EscPass(a + r) == a + EscPass(r)
    decreases |a|
  {
    if a != [] {
      assert a[0] in a;
      assert Esc !in a[1..] by {
        forall c | c in a[1..] ensures c in a { }
      }
      var s := a + r;
      assert s[0] == a[0] && s[1..] == a[1..] + r;
      EscPassPlainPrefix(a[1..], r);
      assert EscPass(s) == [a[0]] + (a[1..] + EscPass(r));
      assert a == [a[0]] + a[1..];
    } else {
      assert a + r == r;
    }
  }

  /**
   * A `$hh` escape after plain text decodes to the byte 0xhh, wherever it
   * stands, and decoding goes on after it.
   */
  lemma HexPassEscapeIn(a: string, hi: char, lo: char, b: string)
    requires Plain(a) && IsHexDigit(hi) && IsHexDigit(lo)
    ensures HexPass(a + (['$', hi, lo] + b), false) == a + ([HexByte(hi, lo)] + HexPass(b, false))
  {
    HexPassPlainPrefix(a, ['$', hi, lo] + b);
    var t := ['$', hi, lo] + b;
    assert HexEscapeAt(t) && t[3..] == b;
  }

  /**
   * Through both passes: a `$hh` escape after plain text becomes the byte
   * 0xhh, unless that byte is the escape character (which the second pass
   * would then pair with what follows).
   */
  lemma UnescapeHexIn(a: string, hi: char, lo: char, b: string)
    requires Plain(a) && IsHexDigit(hi) && IsHexDigit(lo) && HexByte(hi, lo) != Esc
    ensures Unescape(a + (['$', hi, lo] + b)) == a + ([HexByte(hi, lo)] + Unescape(b))
  {
    var x := HexByte(hi, lo);
    HexPassEscapeIn(a, hi, lo, b);
    EscPassPlainPrefix(a, [x] + HexPass(b, false));
    var u := [x] + HexPass(b, false);
    assert u[0] == x && u[1..] == HexPass(b, false);
  }

  /**
   * An escape pair decodes to the escaped byte (any byte but a line feed or
   * the escape character itself), and it hides a `$` from the hex pass.
   */
  lemma UnescapePair(c: char, b: string)
    requires c != '\n' && c != Esc
    ensures Unescape([Esc, c] + b) == [c] + Unescape(b)
  {
    var s := [Esc, c] + b;
    assert !HexEscapeAt(s) && s[1..] == [c] + b;
    var t := [c] + b;
    assert t[1..] == b;
    assert HexPass(t, true) == [c] + HexPass(b, false);
    assert HexPass(s, false) == [Esc, c] + HexPass(b, false);
    var h := [Esc, c] + HexPass(b, false);
    assert h[2..] == HexPass(b, false);
  }

  /**
   * The lookbehind sees only one byte: after an escaped escape character a
   * `$hh` is still taken as escaped, so `\\$41` decodes to `\$41`.
   */
  lemma UnescapeEscapedEscape()
    ensures Unescape([Esc, Esc, '$', '4', '1']) == [Esc, '$', '4', '1']
  {
    var s := [Esc, Esc, '$', '4', '1'];
    assert !HexEscapeAt(s) && s[1..] == [Esc, '$', '4', '1'];
    var t := s[1..];
    assert t[1..] == ['$', '4', '1'];
    var u := ['$', '4', '1'];
    assert u[1..] == ['4', '1'] && !HexEscapeAt(u[1..]) && u[1..][1..] == ['1'];
    assert ['1'][1..] == [];
    assert HexPass(u, true) == u;
    assert HexPass(s, false) == s;
    assert s[2..] == u;
    EscPassPlain(u);
  }

  /**
   * `unescape` is not idempotent on text free of the escape character:
   * `$2441` decodes to `$41`, which decodes again to `A`.
   */
  lemma UnescapeNotIdempotent()
    ensures Unescape("$2441") == "$41"
    ensures Unescape(Unescape("$2441")) == "A"
  {
    var s := "$2441";
    assert HexEscapeAt(s) && HexByte('2', '4') == '$';
    assert s[3..] == "41";
    var t := "41";
    assert !HexEscapeAt(t) && t[1..] == "1" && !HexEscapeAt(t[1..]) && t[1..][1..] == [];
    assert HexPass(t, false) == t;
    assert HexPass(s, false) == "$41";
    EscPassPlain("$41");
    var u := "$41";
    assert HexEscapeAt(u) && HexByte('4', '1') == 'A' && u[3..] == [];
    assert HexPass(u, false) == "A";
    EscPassPlain("A");
  }

  /** The escaping a Mork writer applies to `$` and the escape character. */
  function Escape(s: string): (r: string)
    ensures |r| >= |s|
    decreases |s|
  {
    if s == [] then []
    else if s[0] == '$' || s[0] == Esc then [Esc, s[0]] + Escape(s[1..])
    else [s[0]] + Escape(s[1..])
  }

  lemma {:induction false} HexPassEscaped(s: string, b: bool)
    ensures HexPass(Escape(s), b) == Escape(s)
    decreases |s|
  {
    if s != [] {
      var e := Escape(s);
      var rest := Escape(s[1..]);
      if s[0] == '$' || s[0] == Esc {
        assert e == [Esc, s[0]] + rest;
        assert !HexEscapeAt(e);
        assert e[1..] == [s[0]] + rest;
        assert HexPass(e, b) == [Esc] + HexPass(e[1..], true);
        assert e[1..][1..] == rest;
        HexPassEscaped(s[1..], s[0] == Esc);
        assert HexPass(e[1..], true) == [s[0]] + HexPass(rest, s[0] == Esc);
      } else {
        assert e == [s[0]] + rest;
        assert !HexEscapeAt(e);
        assert e[1..] == rest;
        HexPassEscaped(s[1..], s[0] == Esc);
      }
    }
  }

  lemma {:induction false} EscPassEscaped(s: string)
    ensures EscPass(Escape(s)) == s
    decreases |s|
  {
    if s != [] {
      var e := Escape(s);
      var rest := Escape(s[1..]);
      EscPassEscaped(s[1..]);
      if s[0] == '$' || s[0] == Esc {
        assert e == [Esc, s[0]] + rest;
        assert e[2..] == rest;
      } else {
        assert e == [s[0]] + rest;
        assert e[1..] == rest;
      }
      assert s == [s[0]] + s[1..];
    }
  }

  /** Round trip: `unescape` undoes the writer's escaping of `$` and the escape character. */
  lemma UnescapeEscape(s: string)
    ensures Unescape(Escape(s)) == s
  {
    HexPassEscaped(s, false);
    EscPassEscaped(s);
  }
}
