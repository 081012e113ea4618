/** Character-level helpers: the substring match behind SQL `ILIKE '%q%'`,
    Ruby's `String#strip` and Rails' `blank?` on strings. */
module Text {

  /** ASCII lower-casing of one character; other characters are kept. */
  function LowerChar(c: char): char
  {
    if 'A' <= c <= 'Z' then (c as int + 32) as char else c
  }

  function Lower(s: string): (r: string)
    ensures |r| == |s|
  {
    seq(|s|, i requires 0 <= i < |s| => LowerChar(s[i]))
  }

  predicate IsPrefix(q: string, s: string)
  {
    |q| <= |s| && s[..|q|] == q
  }

  /** `q` occurs in `s` starting at position `i`. */
  predicate OccursAt(s: string, q: string, i: int)
  {
    0 <= i && i + |q| <= |s| && s[i..i + |q|] == q
  }

  /** `q` occurs in `s` as a contiguous substring. */
  predicate Contains(s: string, q: string)
    decreases |s|
  {
    IsPrefix(q, s) || (s != [] && Contains(s[1..], q))
  }

  /** `Contains` holds exactly when `q` sits at some position of `s`. */
  lemma {:induction false} ContainsAt(s: string, q: string)
    ensures Contains(s, q) <==> exists i :: OccursAt(s, q, i)
  {
    if IsPrefix(q, s) {
      assert OccursAt(s, q, 0);
    } else if s == [] {
    } else {
      ContainsAt(s[1..], q);
      if exists i :: OccursAt(s, q, i) {
        var i :| OccursAt(s, q, i);
        assert i != 0;
        assert OccursAt(s[1..], q, i - 1);
      }
      if Contains(s[1..], q) {
        var i :| OccursAt(s[1..], q, i);
        assert s[1..][i..i + |q|] == s[i + 1..i + 1 + |q|];
        assert OccursAt(s, q, i + 1);
      }
    }
  }

  /** A query whose first character never occurs in `s` does not occur in `s`. */
  lemma {:induction false} NotContainsFirst(s: string, q: string)
    requires q != [] && q[0] !in s
    ensures !Contains(s, q)
  {
    if s != [] {
      assert s[0] != q[0];
      NotContainsFirst(s[1..], q);
    }
  }

  /** Case-insensitive containment, as `ILIKE '%q%'` decides it for a query
      without wildcard characters. */
  predicate ContainsIgnoringCase(s: string, q: string)
  {
    Contains(Lower(s), Lower(q))
  }

  /** The characters Ruby's `strip` removes: space, tab, line feed, vertical
      tab, form feed, carriage return. */
  predicate IsSpace(c: char)
  {
    c == ' ' || '\t' <= c <= '\r'
  }

  predicate AllSpace(s: string)
  {
    forall i :: 0 <= i < |s| ==> IsSpace(s[i])
  }

  /** The characters of the POSIX class `[[:space:]]` on a Unicode string: the
      code points with the Unicode White_Space property. */
  predicate IsBlankChar(c: char)
  {
    var n := c as int;
    || 0x09 <= n <= 0x0D || n == 0x20 || n == 0x85 || n == 0xA0 || n == 0x1680
    || 0x2000 <= n <= 0x200A || n == 0x2028 || n == 0x2029 || n == 0x202F
    || n == 0x205F || n == 0x3000
  }

  /** Rails' `String#blank?` (`/\A[[:space:]]*\z/`): nothing but Unicode white
      space. */
  predicate Blank(s: string)
  {
    forall i :: 0 <= i < |s| ==> IsBlankChar(s[i])
  }

  /** `s` without its leading white space. */
  function StripLeading(s: string): string
  {
    if s != [] && IsSpace(s[0]) then StripLeading(s[1..]) else s
  }

  /** `StripLeading(s)` is a suffix of `s`, the part cut off is white space,
      and what is left does not start with white space. */
  lemma {:induction false} StripLeadingSuffix(s: string)
    ensures var r := StripLeading(s);
            && |r| <= |s| && r == s[|s| - |r|..]
            && AllSpace(s[..|s| - |r|])
            && (r == [] || !IsSpace(r[0]))
  {
    if s != [] && IsSpace(s[0]) {
      StripLeadingSuffix(s[1..]);
      var r := StripLeading(s);
      forall k | 0 <= k < |s| - |r| ensures IsSpace(s[k]) {
        if k > 0 { assert s[k] == s[1..][..|s| - 1 - |r|][k - 1]; }
      }
    }
  }

  /** `s` without its trailing white space. */
  function StripTrailing(s: string): string
  {
    if s != [] && IsSpace(s[|s| - 1]) then StripTrailing(s[..|s| - 1]) else s
  }

  /** `StripTrailing(s)` is a prefix of `s`, the part cut off is white space,
      and what is left does not end with white space. */
  lemma {:induction false} StripTrailingPrefix(s: string)
    ensures var r := StripTrailing(s);
            && |r| <= |s| && r == s[..|r|]
            && AllSpace(s[|r|..])
            && (r == [] || !IsSpace(r[|r| - 1]))
  {
    if s != [] && IsSpace(s[|s| - 1]) {
      StripTrailingPrefix(s[..|s| - 1]);
      var r := StripTrailing(s);
      forall k | |r| <= k < |s| ensures IsSpace(s[k]) {
        if k < |s| - 1 { assert s[k] == s[..|s| - 1][|r|..][k - |r|]; }
      }
    }
  }

  /** Ruby's `String#strip`: `s` without its leading and its trailing white
      space. */
  function Strip(s: string): string
  {
    StripTrailing(StripLeading(s))
  }

  /** `Strip(s)` is the slice of `s` between its leading and its trailing
      white space: it neither starts nor ends with white space, and all that
      was cut off around it is white space. */
  lemma StripSlice(s: string)
    ensures var r := Strip(s);
            && (r == [] || (!IsSpace(r[0]) && !IsSpace(r[|r| - 1])))
            && exists i :: 0 <= i && i + |r| <= |s| && r == s[i..i + |r|]
                           && AllSpace(s[..i]) && AllSpace(s[i + |r|..])
  {
    var l := StripLeading(s);
    StripLeadingSuffix(s);
    StripTrailingPrefix(l);
    var r := StripTrailing(l);
    var i := |s| - |l|;
    assert r == s[i..i + |r|];
    assert s[i + |r|..] == l[|r|..];
  }

  /** Stripping a stripped string changes nothing. */
  lemma StripIdempotent(s: string)
    ensures Strip(Strip(s)) == Strip(s)
  {
    var t := Strip(s);
    StripSlice(s);
    assert StripLeading(t) == t;
    assert StripTrailing(t) == t;
  }

  /** `strip` leaves nothing of a string exactly when the string consists of
      the white space `strip` removes. */
  lemma {:induction false} AllSpaceIffStripEmpty(s: string)
    ensures AllSpace(s) <==> Strip(s) == []
  {
    StripSlice(s);
    var i :| 0 <= i && i + |Strip(s)| <= |s| && Strip(s) == s[i..i + |Strip(s)|]
             && AllSpace(s[..i]) && AllSpace(s[i + |Strip(s)|..]);
    if Strip(s) == [] {
      forall k | 0 <= k < |s| ensures IsSpace(s[k]) {
        if k < i { assert s[k] == s[..i][k]; } else { assert s[k] == s[i..][k - i]; }
      }
    }
  }

  /** Whatever `strip` empties is blank. */
  lemma StripEmptyIsBlank(s: string)
    requires Strip(s) == []
    ensures Blank(s)
  {
    AllSpaceIffStripEmpty(s);
  }

  /** What `strip` removes, `blank?` counts as white space. */
  lemma AllSpaceBlank(s: string)
    requires AllSpace(s)
    ensures Blank(s)
  {
    forall k | 0 <= k < |s| ensures IsBlankChar(s[k]) {
      assert IsSpace(s[k]);
    }
  }

  /** A string of three parts is blank exactly when each part is. */
  lemma BlankConcat(a: string, b: string, c: string)
    ensures Blank(a + b + c) <==> Blank(a) && Blank(b) && Blank(c)
  {
    var s := a + b + c;
    if Blank(a) && Blank(b) && Blank(c) {
      forall k | 0 <= k < |s| ensures IsBlankChar(s[k]) {
        if k < |a| { assert s[k] == a[k]; }
        else if k < |a| + |b| { assert s[k] == b[k - |a|]; }
        else { assert s[k] == c[k - |a| - |b|]; }
      }
    }
    if Blank(s) {
      assert forall k | 0 <= k < |a| :: a[k] == s[k];
      assert forall k | 0 <= k < |b| :: b[k] == s[|a| + k];
      assert forall k | 0 <= k < |c| :: c[k] == s[|a| + |b| + k];
    }
  }

  /** Stripping never changes whether a string is blank: it only removes
      characters that `blank?` counts as white space. */
  lemma StripKeepsBlank(s: string)
    ensures Blank(Strip(s)) <==> Blank(s)
  {
    StripSlice(s);
    var r := Strip(s);
    var i :| 0 <= i && i + |r| <= |s| && r == s[i..i + |r|]
             && AllSpace(s[..i]) && AllSpace(s[i + |r|..]);
    assert s == s[..i] + r + s[i + |r|..];
    AllSpaceBlank(s[..i]);
    AllSpaceBlank(s[i + |r|..]);
    BlankConcat(s[..i], r, s[i + |r|..]);
  }

  /** A no-break space is blank, yet `strip` keeps it: blank is not the same
      as stripped to nothing. */
  lemma NoBreakSpaceBlankNotStripped()
    ensures Blank("\U{A0}") && Strip("\U{A0}") == "\U{A0}"
  {
    assert !IsSpace('\U{A0}');
  }
}
