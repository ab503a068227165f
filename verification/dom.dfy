/** Vocabulary shared by both controllers: elements that a DOM query may or may not find,
    the inline `style.display` value they read and write, and `String.prototype.trim`. */
module Dom {

  /** An element a query may not find, or an attribute that may be absent. */
  datatype Option<+T> = None | Some(value: T)

  /** An element's inline `style.display` as the controllers use it: never written (the empty
      string), `'block'`, or `'none'` (called `Hidden` here). */
  datatype Display = Unset | Block | Hidden

  /** The characters `String.prototype.trim` strips: ECMAScript WhiteSpace and LineTerminator. */
  predicate IsWhiteSpace(c: char) {
    || c == '\t' || c == '\n' || c == '\U{B}' || c == '\U{C}' || c == '\r' || c == ' '
    || c == '\U{A0}' || c == '\U{1680}' || ('\U{2000}' <= c <= '\U{200A}')
    || c == '\U{2028}' || c == '\U{2029}' || c == '\U{202F}' || c == '\U{205F}'
    || c == '\U{3000}' || c == '\U{FEFF}'
  }

  /** Every character of `s` is white space (the empty string included). */
  predicate IsBlank(s: string) {
    forall i :: 0 <= i < |s| ==> IsWhiteSpace(s[i])
  }

  /** Drops the leading white space: the result is a suffix of `s`, everything dropped is
      white space, and the result does not start with white space. */
  function TrimStart(s: string): (r: string)
    ensures |r| <= |s| && r == s[|s| - |r|..]
    ensures forall i :: 0 <= i < |s| - |r| ==> IsWhiteSpace(s[i])
    ensures r == [] || !IsWhiteSpace(r[0])
  {
    if s != [] && IsWhiteSpace(s[0]) then TrimStart(s[1..]) else s
  }

  /** Drops the trailing white space: the result is a prefix of `s`, everything dropped is
      white space, and the result does not end with white space. */
  function TrimEnd(s: string): (r: string)
    ensures |r| <= |s| && r == s[..|r|]
    ensures forall i :: |r| <= i < |s| ==> IsWhiteSpace(s[i])
    ensures r == [] || !IsWhiteSpace(r[|r| - 1])
  {
    if s != [] && IsWhiteSpace(s[|s| - 1]) then TrimEnd(s[..|s| - 1]) else s
  }

  /** How many white-space characters `s` starts with. */
  function LeadingBlanks(s: string): (n: nat)
    ensures n <= |s|
  {
    if s != [] && IsWhiteSpace(s[0]) then 1 + LeadingBlanks(s[1..]) else 0
  }

  /** `s` is `a` white-space characters, then `r`, then white space only. */
  predicate BlankAround(s: string, a: nat, r: string) {
    && a + |r| <= |s|
    && r == s[a..a + |r|]
    && IsBlank(s[..a])
    && IsBlank(s[a + |r|..])
  }

  /** `s.trim()`: the middle of `s` once the leading white space and the trailing white space
      are dropped. It is empty exactly when `s` is blank, and otherwise bounded by characters
      that are not white space. */
  function Trim(s: string): (r: string)
    ensures BlankAround(s, LeadingBlanks(s), r)
    ensures r == [] <==> IsBlank(s)
    ensures r != [] ==> !IsWhiteSpace(r[0]) && !IsWhiteSpace(r[|r| - 1])
  {
    TrimFacts(s);
    TrimEnd(TrimStart(s))
  }

  /** The contract of `Trim`, about the two passes it makes. */
  lemma TrimFacts(s: string)
    ensures var r := TrimEnd(TrimStart(s));
      && BlankAround(s, LeadingBlanks(s), r)
      && (r == [] <==> IsBlank(s))
      && (r != [] ==> !IsWhiteSpace(r[0]) && !IsWhiteSpace(r[|r| - 1]))
  {
    TrimSplits(s);
    TrimEnds(s);
  }

  /** `TrimStart` drops exactly the leading white space. */
  lemma {:induction false} TrimStartDropsLeading(s: string)
    ensures |s| - |TrimStart(s)| == LeadingBlanks(s)
  {
    if s != [] && IsWhiteSpace(s[0]) {
      TrimStartDropsLeading(s[1..]);
    }
  }

  /** The result of trimming is empty only for a blank `s`, and otherwise starts and ends with
      characters that are not white space. */
  lemma TrimEnds(s: string)
    ensures var r := TrimEnd(TrimStart(s));
      && (r == [] <==> IsBlank(s))
      && (r != [] ==> !IsWhiteSpace(r[0]) && !IsWhiteSpace(r[|r| - 1]))
  {
    var t := TrimStart(s);
    var r := TrimEnd(t);
    if t != [] {
      assert r[0] == t[0];
      assert !IsWhiteSpace(s[|s| - |t|]);
    }
  }

  /** Trimming leaves the slice of `s` that starts after its leading white space. */
  lemma TrimSplits(s: string)
    ensures BlankAround(s, LeadingBlanks(s), TrimEnd(TrimStart(s)))
  {
    var t := TrimStart(s);
    var r := TrimEnd(t);
    TrimStartDropsLeading(s);
    LeadingBlanksAreBlank(s);
    TrailingDroppedBlank(t, t[|r|..]);
    PrefixOfSuffix(s, LeadingBlanks(s), t, r);
  }

  /** A prefix `r` of the suffix `t` of `s` from `a` on, with white space only before `t` and
      after `r`, has white space only around it in `s`. */
  lemma PrefixOfSuffix(s: string, a: nat, t: string, r: string)
    requires a <= |s| && t == s[a..] && IsBlank(s[..a])
    requires |r| <= |t| && r == t[..|r|] && IsBlank(t[|r|..])
    ensures BlankAround(s, a, r)
  {
    assert s[a + |r|..] == t[|r|..];
  }

  /** The leading white space is white space. */
  lemma {:induction false} LeadingBlanksAreBlank(s: string)
    ensures IsBlank(s[..LeadingBlanks(s)])
  {
    if s != [] && IsWhiteSpace(s[0]) {
      LeadingBlanksAreBlank(s[1..]);
      assert s[..LeadingBlanks(s)] == [s[0]] + s[1..][..LeadingBlanks(s[1..])];
    }
  }

  /** What `TrimEnd` drops from `t` is white space. */
  lemma TrailingDroppedBlank(t: string, dropped: string)
    requires dropped == t[|TrimEnd(t)|..]
    ensures IsBlank(dropped)
  {
    var r := TrimEnd(t);
    forall i | 0 <= i < |dropped|
      ensures IsWhiteSpace(dropped[i])
    {
      assert dropped[i] == t[|r| + i];
    }
  }

  /** Trimming an already trimmed string changes nothing. */
  lemma TrimIdempotent(s: string)
    ensures Trim(Trim(s)) == Trim(s)
  {
    var r := Trim(s);
    if r != [] {
      assert TrimStart(r) == r;
      assert TrimEnd(r) == r;
    }
  }

  /** A string that neither starts nor ends with white space is its own trim. */
  lemma TrimmedStaysPut(s: string)
    requires s != [] && !IsWhiteSpace(s[0]) && !IsWhiteSpace(s[|s| - 1])
    ensures Trim(s) == s
  {
  }
}
