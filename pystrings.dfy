/** The Python string operations the work-item code uses: strip, capitalize, split,
    find, startswith and int(). */
module PyStrings {
  import opened JsonValues

  /** The characters for which Python's str.isspace() holds, and which str.strip() removes. */
  predicate IsSpace(c: char)
  {
    || '\t' <= c <= '\r'
    || '\U{1c}' <= c <= ' '
    || c == '\U{85}' || c == '\U{a0}' || c == '\U{1680}'
    || '\U{2000}' <= c <= '\U{200a}'
    || c == '\U{2028}' || c == '\U{2029}' || c == '\U{202f}' || c == '\U{205f}' || c == '\U{3000}'
  }

  predicate AllSpace(s: string)
  {
    forall i :: 0 <= i < |s| ==> IsSpace(s[i])
  }

  /** Neither the first nor the last character is whitespace. */
  predicate NoEdgeSpace(s: string)
  {
    s == [] || (!IsSpace(s[0]) && !IsSpace(s[|s| - 1]))
  }

  /** str.lstrip(): drops the whitespace prefix, keeps the rest. */
  function LStrip(s: string): (r: string)
    ensures |r| <= |s| && r == s[|s| - |r|..]
    ensures AllSpace(s[..|s| - |r|])
    ensures r == [] || !IsSpace(r[0])
  {
    if s != [] && IsSpace(s[0]) then
      var r := LStrip(s[1..]);
      assert s[..|s| - |r|] == [s[0]] + s[1..][..|s| - 1 - |r|];
      r
    else s
  }

  /** str.rstrip(): drops the whitespace suffix, keeps the rest. */
  function RStrip(s: string): (r: string)
    ensures |r| <= |s| && r == s[..|r|]
    ensures AllSpace(s[|r|..])
    ensures r == [] || !IsSpace(r[|r| - 1])
  {
    if s != [] && IsSpace(s[|s| - 1]) then
      var r := RStrip(s[..|s| - 1]);
      assert s[|r|..] == s[..|s| - 1][|r|..] + [s[|s| - 1]];
      r
    else s
  }

  /** str.strip() */
  function Strip(s: string): (r: string)
    ensures |r| <= |s|
    ensures NoEdgeSpace(r)
    ensures NoEdgeSpace(s) ==> r == s
    ensures r == [] <==> AllSpace(s)
  {
    var l := LStrip(s);
    var r := RStrip(l);
    assert NoEdgeSpace(s) && s != [] ==> l == s;
    assert r == [] ==> AllSpace(s) by {
      if r == [] {
        assert AllSpace(s[..|s| - |l|]) && AllSpace(l) && s == s[..|s| - |l|] + l;
      }
    }
    r
  }

  /** Whitespace around a text without surrounding whitespace is exactly what strip removes. */
  lemma StripPadded(pre: string, x: string, post: string)
    requires AllSpace(pre) && AllSpace(post) && x != [] && NoEdgeSpace(x)
    ensures Strip(pre + x + post) == x
  {
    assert pre + x + post == pre + (x + post);
    LStripPadded(pre, x + post);
    RStripPadded(x, post);
  }

  lemma {:induction false} LStripPadded(pre: string, y: string)
    requires AllSpace(pre) && y != [] && !IsSpace(y[0])
    ensures LStrip(pre + y) == y
  {
    if pre == [] {
      assert pre + y == y;
    } else {
      assert (pre + y)[0] == pre[0];
      assert (pre + y)[1..] == pre[1..] + y;
      LStripPadded(pre[1..], y);
    }
  }

  lemma {:induction false} RStripPadded(y: string, post: string)
    requires AllSpace(post) && y != [] && !IsSpace(y[|y| - 1])
    ensures RStrip(y + post) == y
  {
    if post == [] {
      assert y + post == y;
    } else {
      var s := y + post;
      assert s[|s| - 1] == post[|post| - 1];
      assert s[..|s| - 1] == y + post[..|post| - 1];
      RStripPadded(y, post[..|post| - 1]);
    }
  }

  function Lower(c: char): char
  {
    if 'A' <= c <= 'Z' then (c as int + 32) as char else c
  }

  function Upper(c: char): char
  {
    if 'a' <= c <= 'z' then (c as int - 32) as char else c
  }

  function LowerAll(s: string): (r: string)
    ensures |r| == |s| && forall i :: 0 <= i < |s| ==> r[i] == Lower(s[i])
  {
    seq(|s|, i requires 0 <= i < |s| => Lower(s[i]))
  }

  /** str.capitalize(): the first character upper-cased, all others lower-cased
      (case mapping of ASCII letters only). */
  function Capitalize(s: string): (r: string)
    ensures |r| == |s|
    ensures s != [] ==> r[0] == Upper(s[0]) && r[1..] == LowerAll(s[1..])
  {
    if s == [] then [] else [Upper(s[0])] + LowerAll(s[1..])
  }

  /** A word spelled as capitalize() spells it: an upper-case ASCII letter, then
      lower-case ASCII letters. */
  predicate CapitalizedWord(w: string)
  {
    && w != []
    && 'A' <= w[0] <= 'Z'
    && forall i :: 1 <= i < |w| ==> 'a' <= w[i] <= 'z'
  }

  /** capitalize() spells a capitalized word exactly when the two agree ignoring case. */
  lemma CapitalizeMatchesIgnoringCase(s: string, w: string)
    requires CapitalizedWord(w)
    ensures Capitalize(s) == w <==> LowerAll(s) == LowerAll(w)
  {
    if Capitalize(s) == w {
      forall i | 0 <= i < |s| ensures LowerAll(s)[i] == LowerAll(w)[i] {
        if i > 0 { assert w[i] == Capitalize(s)[1..][i - 1]; }
      }
    }
    if LowerAll(s) == LowerAll(w) {
      assert |s| == |w|;
      forall i | 0 <= i < |s| ensures Capitalize(s)[i] == w[i] {
        assert Lower(s[i]) == Lower(w[i]);
        if i > 0 { assert Capitalize(s)[i] == LowerAll(s[1..])[i - 1]; }
      }
    }
  }

  /** A capitalized word is its own capitalization and has no surrounding whitespace. */
  lemma CapitalizeFixesWord(w: string)
    requires CapitalizedWord(w)
    ensures Capitalize(w) == w && Strip(w) == w
  {
    assert LowerAll(w[1..]) == w[1..];
    assert NoEdgeSpace(w);
  }

  /** str.split(sep) for a one-character separator: the pieces between separators,
      empty pieces included. */
  function Split(s: string, sep: char): (r: seq<string>)
    ensures |r| >= 1
    ensures forall k :: 0 <= k < |r| ==> sep !in r[k]
  {
    if s == [] then [[]]
    else
      var rest := Split(s[1..], sep);
      if s[0] == sep then [[]] + rest else [[s[0]] + rest[0]] + rest[1..]
  }

  /** sep.join(parts) */
  function Join(parts: seq<string>, sep: char): string
  {
    if parts == [] then []
    else if |parts| == 1 then parts[0]
    else parts[0] + [sep] + Join(parts[1..], sep)
  }

  /** Joining the pieces of a split gives back the string. */
  lemma {:induction false} JoinSplit(s: string, sep: char)
    ensures Join(Split(s, sep), sep) == s
  {
    if s != [] {
      var rest := Split(s[1..], sep);
      JoinSplit(s[1..], sep);
      if s[0] == sep {
        assert Split(s, sep) == [[]] + rest;
      } else if |rest| == 1 {
        assert Split(s, sep) == [[s[0]] + rest[0]];
      } else {
        assert Split(s, sep) == [[s[0]] + rest[0]] + rest[1..];
        assert Join(rest, sep) == rest[0] + [sep] + Join(rest[1..], sep);
      }
    }
  }

  /** A piece without the separator splits to itself. */
  lemma {:induction false} SplitNoSeparator(a: string, sep: char)
    requires sep !in a
    ensures Split(a, sep) == [a]
  {
    if a != [] {
      assert sep !in a[1..] by { assert forall c :: c in a[1..] ==> c in a; }
      SplitNoSeparator(a[1..], sep);
      assert [a[0]] + a[1..] == a;
    }
  }

  /** A separator after a separator-free piece starts a new piece. */
  lemma {:induction false} SplitAfterPiece(a: string, sep: char, b: string)
    requires sep !in a
    ensures Split(a + [sep] + b, sep) == [a] + Split(b, sep)
  {
    if a == [] {
      assert a + [sep] + b == [sep] + b;
      assert ([sep] + b)[1..] == b;
    } else {
      var s := a + [sep] + b;
      assert s[0] == a[0] && a[0] != sep;
      assert s[1..] == a[1..] + [sep] + b;
      assert sep !in a[1..] by { assert forall c :: c in a[1..] ==> c in a; }
      SplitAfterPiece(a[1..], sep, b);
      assert [a[0]] + a[1..] == a;
    }
  }

  /** Splitting a join of separator-free pieces gives back the pieces. */
  lemma {:induction false} SplitJoin(parts: seq<string>, sep: char)
    requires parts != []
    requires forall k :: 0 <= k < |parts| ==> sep !in parts[k]
    ensures Split(Join(parts, sep), sep) == parts
  {
    if |parts| == 1 {
      SplitNoSeparator(parts[0], sep);
    } else {
      SplitJoin(parts[1..], sep);
      SplitAfterPiece(parts[0], sep, Join(parts[1..], sep));
    }
  }

  /** `pat` occurs in `s` at position `j`. */
  predicate OccursAt(s: string, pat: string, j: int)
  {
    0 <= j && j + |pat| <= |s| && s[j..j + |pat|] == pat
  }

  /** str.startswith(pat) */
  predicate StartsWith(s: string, pat: string)
  {
    OccursAt(s, pat, 0)
  }

  /** The first position at or after `from` where `pat` occurs. */
  function FindFrom(s: string, pat: string, from: nat): (r: Option<nat>)
    ensures r.Some? ==> from <= r.value && OccursAt(s, pat, r.value)
    ensures forall j :: from <= j && (r.None? || j < r.value) ==> !OccursAt(s, pat, j)
    decreases |s| - from
  {
    if from + |pat| > |s| then None
    else if s[from..from + |pat|] == pat then Some(from)
    else FindFrom(s, pat, from + 1)
  }

  /** str.find(pat), as an option: the first position where `pat` occurs. */
  function Find(s: string, pat: string): (r: Option<nat>)
    ensures r.Some? ==> OccursAt(s, pat, r.value)
    ensures forall j :: 0 <= j && (r.None? || j < r.value) ==> !OccursAt(s, pat, j)
  {
    FindFrom(s, pat, 0)
  }

  /** `sub in s` for strings: substring test. */
  predicate Contains(s: string, sub: string)
  {
    Find(s, sub).Some?
  }

  predicate IsDigit(c: char)
  {
    '0' <= c <= '9'
  }

  /** The body of a Python integer literal: digits, where a single underscore may stand
      between two digits. */
  predicate DigitGroups(u: string)
  {
    && u != []
    && IsDigit(u[0])
    && IsDigit(u[|u| - 1])
    && forall i :: 0 <= i < |u| ==> (IsDigit(u[i]) || (u[i] == '_' && 0 < i < |u| - 1 && IsDigit(u[i + 1])))
  }

  /** The value of a string of digits and underscores, ignoring the underscores. */
  function DigitsValue(u: string): nat
  {
    if u == [] then 0
    else
      var last := u[|u| - 1];
      if IsDigit(last) then DigitsValue(u[..|u| - 1]) * 10 + (last as int - '0' as int)
      else DigitsValue(u[..|u| - 1])
  }

  /** The text int() accepts once stripped: an optional sign, then digit groups. Any
      other character, a doubled or edge underscore, or an empty text is rejected. */
  predicate IntLiteral(t: string)
  {
    t != [] && (DigitGroups(t) || ((t[0] == '-' || t[0] == '+') && DigitGroups(t[1..])))
  }

  /** Python's int(s) on a string, None where it raises ValueError: surrounding whitespace,
      an optional sign, then digit groups (ASCII digits only). */
  function ParseInt(s: string): (r: Option<int>)
    ensures r.Some? <==> IntLiteral(Strip(s))
    ensures r.Some? && DigitGroups(Strip(s)) ==> r.value == DigitsValue(Strip(s)) >= 0
  {
    var t := Strip(s);
    if t == [] then None
    else if t[0] == '-' || t[0] == '+' then
      if DigitGroups(t[1..]) then
        var magnitude: int := DigitsValue(t[1..]);
        Some(if t[0] == '-' then -magnitude else magnitude)
      else None
    else if DigitGroups(t) then Some(DigitsValue(t))
    else None
  }

  /** str(n) for a natural number. */
  function NatToString(n: nat): (r: string)
    ensures r != [] && forall i :: 0 <= i < |r| ==> IsDigit(r[i])
  {
    var d := [(n % 10 + '0' as int) as char];
    if n < 10 then d else NatToString(n / 10) + d
  }

  /** int(str(n)) == n */
  lemma {:induction false} ParseIntNatToString(n: nat)
    ensures ParseInt(NatToString(n)) == Some(n)
  {
    var s := NatToString(n);
    assert IsDigit(s[0]) && IsDigit(s[|s| - 1]);
    assert NoEdgeSpace(s);
    assert Strip(s) == s;
    assert s[0] != '-' && s[0] != '+';
    assert DigitGroups(s);
    DigitsValueNatToString(n);
    assert ParseInt(s).Some? && ParseInt(s).value == DigitsValue(s);
  }

  lemma {:induction false} DigitsValueNatToString(n: nat)
    ensures DigitsValue(NatToString(n)) == n
  {
    var s := NatToString(n);
    if n >= 10 {
      DigitsValueNatToString(n / 10);
      assert s[..|s| - 1] == NatToString(n / 10);
    }
  }
}
