/** The two string operations the program applies to operator input:
    `String.prototype.trim` on names and `String.prototype.toLowerCase`
    on actions. */
module Strings {

  /** The code points `trim` strips: ECMAScript's WhiteSpace (TAB, VT, FF,
      SPACE, NO-BREAK SPACE, ZERO WIDTH NO-BREAK SPACE and the Space_Separator
      category) and LineTerminator (LF, CR, LINE and PARAGRAPH SEPARATOR). */
  predicate IsWhitespace(c: char) {
    var n := c as int;
    || n == 0x09 || n == 0x0A || n == 0x0B || n == 0x0C || n == 0x0D
    || n == 0x20 || n == 0xA0 || n == 0x1680
    || (0x2000 <= n <= 0x200A)
    || n == 0x2028 || n == 0x2029 || n == 0x202F || n == 0x205F
    || n == 0x3000 || n == 0xFEFF
  }

  predicate AllWhitespace(s: string) {
    forall i :: 0 <= i < |s| ==> IsWhitespace(s[i])
  }

  /** Neither end of `s` is whitespace. */
  predicate IsTrimmed(s: string) {
    s == [] || (!IsWhitespace(s[0]) && !IsWhitespace(s[|s| - 1]))
  }

  /** `s` without its leading whitespace: a suffix of `s` that does not
      start with whitespace, and everything dropped is whitespace. */
  function TrimStart(s: string): (r: string)
    ensures |r| <= |s| && r == s[|s| - |r|..]
    ensures AllWhitespace(s[..|s| - |r|])
    ensures r != [] ==> !IsWhitespace(r[0])
    decreases |s|
  {
    if |s| > 0 && IsWhitespace(s[0]) then
      var r := TrimStart(s[1..]);
      assert s[..|s| - |r|] == [s[0]] + s[1..][..|s| - 1 - |r|];
      r
    else
      s
  }

  /** `s` without its trailing whitespace: a prefix of `s` that does not
      end with whitespace, and everything dropped is whitespace. */
  function TrimEnd(s: string): (r: string)
    ensures |r| <= |s| && r == s[..|r|]
    ensures AllWhitespace(s[|r|..])
    ensures r != [] ==> !IsWhitespace(r[|r| - 1])
    decreases |s|
  {
    if |s| > 0 && IsWhitespace(s[|s| - 1]) then
      var r := TrimEnd(s[..|s| - 1]);
      assert s[|r|..] == s[..|s| - 1][|r|..] + [s[|s| - 1]];
      r
    else
      s
  }

  /** `String.prototype.trim`. Its result starts and ends with something
      other than whitespace, and is empty exactly when `s` is all
      whitespace. */
  function Trim(s: string): (r: string)
    ensures IsTrimmed(r)
    ensures |r| <= |s|
    ensures r == [] <==> AllWhitespace(s)
  {
    var t := TrimStart(s);
    var r := TrimEnd(t);
    assert AllWhitespace(s) ==> t == [] by {
      if t != [] {
        assert t[0] == s[|s| - |t|];
      }
    }
    assert r == [] ==> s == s[..|s| - |t|] + t[|r|..];
    r
  }

  /** `r` is the slice of `s` at `i`, with only whitespace before and
      after it. */
  predicate PaddedSliceAt(s: string, r: string, i: int) {
    && 0 <= i <= |s| - |r|
    && r == s[i..i + |r|]
    && AllWhitespace(s[..i]) && AllWhitespace(s[i + |r|..])
  }

  /** What `trim` keeps is a slice of its argument, and all it drops on
      either side is whitespace. */
  lemma TrimIsSlice(s: string)
    ensures exists i :: PaddedSliceAt(s, Trim(s), i)
  {
    var t := TrimStart(s);
    var r := TrimEnd(t);
    var i := |s| - |t|;
    assert r == s[i..i + |r|] by {
      assert t == s[i..];
    }
    assert AllWhitespace(s[i + |r|..]) by {
      assert s[i + |r|..] == t[|r|..];
    }
    assert r == Trim(s);
    assert PaddedSliceAt(s, r, i);
  }

  /** Trimming what is already trimmed changes nothing. */
  lemma TrimOfTrimmed(s: string)
    requires IsTrimmed(s)
    ensures Trim(s) == s
  {
  }

  /** `trim` is idempotent. */
  lemma TrimIdempotent(s: string)
    ensures Trim(Trim(s)) == Trim(s)
  {
    TrimOfTrimmed(Trim(s));
  }

  /** Whitespace in front of `s` is dropped by the start-trim. */
  lemma {:induction false} TrimStartSkipsWhitespace(p: string, s: string)
    requires AllWhitespace(p)
    ensures TrimStart(p + s) == TrimStart(s)
    decreases |p|
  {
    if p != [] {
      assert (p + s)[0] == p[0];
      assert (p + s)[1..] == p[1..] + s;
      TrimStartSkipsWhitespace(p[1..], s);
    } else {
      assert p + s == s;
    }
  }

  /** Whitespace after `s` is dropped by the end-trim. */
  lemma {:induction false} TrimEndSkipsWhitespace(s: string, q: string)
    requires AllWhitespace(q)
    ensures TrimEnd(s + q) == TrimEnd(s)
    decreases |q|
  {
    if q != [] {
      var q' := q[..|q| - 1];
      assert (s + q)[|s + q| - 1] == q[|q| - 1];
      assert (s + q)[..|s + q| - 1] == s + q';
      TrimEndSkipsWhitespace(s, q');
    } else {
      assert s + q == s;
    }
  }

  /** When `s` is not all whitespace, its start-trim stops inside `s`, so
      whatever follows `s` is kept as it is. */
  lemma {:induction false} TrimStartAppend(s: string, q: string)
    requires TrimStart(s) != []
    ensures TrimStart(s + q) == TrimStart(s) + q
    decreases |s|
  {
    if IsWhitespace(s[0]) {
      assert (s + q)[1..] == s[1..] + q;
      TrimStartAppend(s[1..], q);
    }
  }

  /** Whitespace around a name does not change what `trim` makes of it. */
  lemma TrimPadded(p: string, s: string, q: string)
    requires AllWhitespace(p) && AllWhitespace(q)
    ensures Trim(p + s + q) == Trim(s)
  {
    assert p + s + q == p + (s + q);
    TrimStartSkipsWhitespace(p, s + q);
    if TrimStart(s) == [] {
      var i := |s| - |TrimStart(s)|;
      assert s == s[..i];
      assert AllWhitespace(s + q);
    } else {
      TrimStartAppend(s, q);
      TrimEndSkipsWhitespace(TrimStart(s), q);
    }
  }

  /** The ASCII case mapping of `toLowerCase`: 'A'..'Z' become 'a'..'z'. */
  function LowerChar(c: char): char {
    if 'A' <= c <= 'Z' then (c as int + 32) as char else c
  }

  /** `String.prototype.toLowerCase`, restricted to ASCII letters: every
      character is mapped on its own and the length is kept. */
  function LowerAscii(s: string): (r: string)
    ensures |r| == |s|
    ensures forall i :: 0 <= i < |s| ==> r[i] == LowerChar(s[i])
  {
    if s == [] then [] else [LowerChar(s[0])] + LowerAscii(s[1..])
  }

  /** `w` is spelled with lower-case ASCII letters only. */
  predicate IsLowerWord(w: string) {
    forall i :: 0 <= i < |w| ==> 'a' <= w[i] <= 'z'
  }

  /** `a` is `w` with any of its letters possibly in upper case. */
  predicate SpelledIgnoringCase(a: string, w: string) {
    && |a| == |w|
    && forall i :: 0 <= i < |a| ==> a[i] == w[i] || a[i] as int == w[i] as int - 32
  }

  /** Lower-casing `a` yields the lower-case word `w` exactly when `a` is
      `w` spelled in any mixture of cases. */
  lemma LowerMatchesWord(a: string, w: string)
    requires IsLowerWord(w)
    ensures LowerAscii(a) == w <==> SpelledIgnoringCase(a, w)
  {
    if SpelledIgnoringCase(a, w) {
      assert forall i :: 0 <= i < |a| ==> LowerAscii(a)[i] == w[i];
    }
    if LowerAscii(a) == w {
      assert forall i :: 0 <= i < |a| ==> LowerChar(a[i]) == w[i];
    }
  }
}
