/**
 * The string helpers the scrapers rely on: Python's `str.strip()`, Go's
 * `strings.TrimSpace`, the part of a name before the first `" ("`
 * (`split(" (")[0]` in Python, `strings.SplitN(s, " (", 2)[0]` in Go) and
 * `replace("^", "")`.
 */
module Text {

  /** Whose notion of whitespace applies. */
  datatype Runtime = Python | Go

  /**
   * Go's `unicode.IsSpace`; Python's `str.isspace` agrees except that it
   * also counts the separators U+001C..U+001F.
   */
  predicate IsSpace(c: char, rt: Runtime)
  {
    var n := c as int;
    (9 <= n <= 13) || n == 32 || n == 0x85 || n == 0xA0 || n == 0x1680
    || (0x2000 <= n <= 0x200A) || n == 0x2028 || n == 0x2029 || n == 0x202F
    || n == 0x205F || n == 0x3000
    || (rt == Python && 0x1C <= n <= 0x1F)
  }

  /** Neither the first nor the last character is whitespace. */
  predicate IsTrimmed(s: string, rt: Runtime)
  {
    s == [] || (!IsSpace(s[0], rt) && !IsSpace(s[|s| - 1], rt))
  }

  /** `s` without its trailing whitespace. */
  function TrimEnd(s: string, rt: Runtime): string
  {
    if |s| > 0 && IsSpace(s[|s| - 1], rt) then TrimEnd(s[..|s| - 1], rt) else s
  }

  /** `TrimEnd` keeps a prefix that does not end in whitespace and cuts only whitespace. */
  lemma {:induction false} TrimEndCutsSpace(s: string, rt: Runtime)
    ensures var r := TrimEnd(s, rt);
            && |r| <= |s| && r == s[..|r|]
            && (r == [] || !IsSpace(r[|r| - 1], rt))
            && (forall k :: |r| <= k < |s| ==> IsSpace(s[k], rt))
  {
    if |s| > 0 && IsSpace(s[|s| - 1], rt) {
      var pre := s[..|s| - 1];
      TrimEndCutsSpace(pre, rt);
      var r := TrimEnd(pre, rt);
      assert pre[..|r|] == s[..|r|];
    }
  }

  /** The number of whitespace characters `s` starts with. */
  function Lead(s: string, rt: Runtime): nat
  {
    if |s| > 0 && IsSpace(s[0], rt) then 1 + Lead(s[1..], rt) else 0
  }

  /** `Lead` counts exactly the whitespace before the first other character. */
  lemma {:induction false} LeadIsSpace(s: string, rt: Runtime)
    ensures Lead(s, rt) <= |s|
    ensures forall k :: 0 <= k < Lead(s, rt) ==> IsSpace(s[k], rt)
    ensures Lead(s, rt) == |s| || !IsSpace(s[Lead(s, rt)], rt)
  {
    if |s| > 0 && IsSpace(s[0], rt) {
      LeadIsSpace(s[1..], rt);
      assert forall k :: 1 <= k < |s| ==> s[k] == s[1..][k - 1];
    }
  }

  /** `s` without leading and trailing whitespace. */
  function Trim(s: string, rt: Runtime): string
  {
    if |s| > 0 && IsSpace(s[0], rt) then Trim(s[1..], rt) else TrimEnd(s, rt)
  }

  /** Trimming is cutting the leading whitespace, then the trailing whitespace. */
  lemma {:induction false} TrimAfterLead(s: string, rt: Runtime)
    ensures Lead(s, rt) <= |s|
    ensures Trim(s, rt) == TrimEnd(s[Lead(s, rt)..], rt)
  {
    if |s| > 0 && IsSpace(s[0], rt) {
      var rest := s[1..];
      TrimAfterLead(rest, rt);
      assert rest[Lead(rest, rt)..] == s[Lead(rest, rt) + 1..];
    } else {
      assert s[0..] == s;
    }
  }

  /**
   * The trim is the slice of `s` after its `Lead` whitespace characters,
   * everything cut off on either side is whitespace, and the result neither
   * starts nor ends with whitespace.
   */
  lemma TrimCutsSpace(s: string, rt: Runtime)
    ensures var r := Trim(s, rt);
            && IsTrimmed(r, rt)
            && Lead(s, rt) + |r| <= |s| && r == s[Lead(s, rt)..Lead(s, rt) + |r|]
            && (forall k :: 0 <= k < Lead(s, rt) ==> IsSpace(s[k], rt))
            && (forall k :: Lead(s, rt) + |r| <= k < |s| ==> IsSpace(s[k], rt))
  {
    LeadIsSpace(s, rt);
    TrimIsSlice(s, rt);
    TrimTailIsSpace(s, rt);
    TrimIsTrimmed(s, rt);
  }

  /** The trim is the slice of `s` that starts after its leading whitespace. */
  lemma TrimIsSlice(s: string, rt: Runtime)
    ensures Lead(s, rt) + |Trim(s, rt)| <= |s|
    ensures Trim(s, rt) == s[Lead(s, rt)..Lead(s, rt) + |Trim(s, rt)|]
  {
    TrimAfterLead(s, rt);
    var lead := Lead(s, rt);
    var rest := s[lead..];
    var r := TrimEnd(rest, rt);
    TrimEndCutsSpace(rest, rt);
    assert rest[..|r|] == s[lead..lead + |r|];
  }

  /** Everything after the trim is whitespace. */
  lemma TrimTailIsSpace(s: string, rt: Runtime)
    ensures forall k :: Lead(s, rt) + |Trim(s, rt)| <= k < |s| ==> IsSpace(s[k], rt)
  {
    TrimAfterLead(s, rt);
    var lead := Lead(s, rt);
    var rest := s[lead..];
    TrimEndCutsSpace(rest, rt);
    assert forall k :: lead <= k < |s| ==> s[k] == rest[k - lead];
  }

  /** The trim neither starts nor ends with whitespace. */
  lemma TrimIsTrimmed(s: string, rt: Runtime)
    ensures IsTrimmed(Trim(s, rt), rt)
  {
    TrimAfterLead(s, rt);
    var lead := Lead(s, rt);
    var rest := s[lead..];
    var r := TrimEnd(rest, rt);
    TrimEndCutsSpace(rest, rt);
    LeadIsSpace(s, rt);
    if r != [] {
      assert r[0] == rest[0] == s[lead];
    }
  }

  /** Python's `str.strip()` with no argument. */
  function Strip(s: string): string
  {
    Trim(s, Python)
  }

  /** Go's `strings.TrimSpace`. */
  function TrimSpace(s: string): string
  {
    Trim(s, Go)
  }

  /** A string that is already trimmed is its own trim. */
  lemma {:induction false} TrimOfTrimmed(s: string, rt: Runtime)
    requires IsTrimmed(s, rt)
    ensures Trim(s, rt) == s
  {
    TrimCutsSpace(s, rt);
    assert Lead(s, rt) == 0;
    assert s[0..] == s;
  }

  /** Trimming twice is trimming once. */
  lemma TrimIdempotent(s: string, rt: Runtime)
    ensures Trim(Trim(s, rt), rt) == Trim(s, rt)
  {
    TrimCutsSpace(s, rt);
    TrimOfTrimmed(Trim(s, rt), rt);
  }

  /** The separator that ends a nutrient's display name. */
  const ParenSep: string := " ("

  /** An occurrence of `" ("` starts at index `i` of `s`. */
  predicate ParenAt(s: string, i: int)
  {
    0 <= i && i + 2 <= |s| && s[i] == ' ' && s[i + 1] == '('
  }

  /** The text before the first `" ("`, or all of `s` when there is none. */
  function BeforeParen(s: string): string
  {
    if |s| < 2 then s
    else if s[0] == ' ' && s[1] == '(' then []
    else [s[0]] + BeforeParen(s[1..])
  }

  /**
   * `BeforeParen` keeps a prefix of `s` that contains no occurrence of the
   * separator and is followed either by the separator or by nothing.
   */
  lemma {:induction false} BeforeParenSplits(s: string)
    ensures var r := BeforeParen(s);
            && |r| <= |s| && r == s[..|r|]
            && (r == s || ParenAt(s, |r|))
            && (forall i :: 0 <= i < |r| ==> !ParenAt(s, i))
  {
    if |s| >= 2 && !(s[0] == ' ' && s[1] == '(') {
      BeforeParenSplits(s[1..]);
      assert forall i :: 1 <= i <= |s| ==> (ParenAt(s, i) <==> ParenAt(s[1..], i - 1));
      var rest := BeforeParen(s[1..]);
      assert [s[0]] + rest == [s[0]] + s[1..][..|rest|] == s[..|rest| + 1];
    }
  }

  /** A name without the separator is returned whole. */
  lemma {:induction false} BeforeParenNoSep(s: string)
    requires forall i :: 0 <= i < |s| ==> !ParenAt(s, i)
    ensures BeforeParen(s) == s
  {
    if |s| >= 2 {
      assert !ParenAt(s, 0);
      assert forall i :: 0 <= i < |s| - 1 ==> ParenAt(s[1..], i) == ParenAt(s, i + 1);
      BeforeParenNoSep(s[1..]);
      assert s == [s[0]] + s[1..];
    }
  }

  /** `s.replace(c, "")`. */
  function RemoveChar(s: string, c: char): string
  {
    if s == [] then []
    else (if s[0] == c then [] else [s[0]]) + RemoveChar(s[1..], c)
  }

  /** Every occurrence of `c` is removed, and every other character kept as often as it was. */
  lemma {:induction false} RemoveCharCounts(s: string, c: char)
    ensures c !in RemoveChar(s, c)
    ensures forall x :: x != c ==> multiset(RemoveChar(s, c))[x] == multiset(s)[x]
    ensures |RemoveChar(s, c)| + multiset(s)[c] == |s|
  {
    if s != [] {
      assert s == [s[0]] + s[1..];
      RemoveCharCounts(s[1..], c);
    }
  }

  /** Removal works piecewise, so the characters kept stay in their order. */
  lemma {:induction false} RemoveCharAppend(a: string, b: string, c: char)
    ensures RemoveChar(a + b, c) == RemoveChar(a, c) + RemoveChar(b, c)
  {
    if a == [] {
      assert a + b == b;
    } else {
      assert (a + b)[0] == a[0];
      assert (a + b)[1..] == a[1..] + b;
      RemoveCharAppend(a[1..], b, c);
    }
  }

  /** A string without `c` is unchanged by removing `c`. */
  lemma {:induction false} RemoveCharAbsent(s: string, c: char)
    requires c !in s
    ensures RemoveChar(s, c) == s
  {
    if s != [] {
      RemoveCharAbsent(s[1..], c);
    }
  }
}
