/** Character and string helpers the game takes from Go's `strings` and
  * `unicode` packages (TrimSpace, ToUpper, Count), and the sequence facts
  * the rest of the model leans on. */
module Text {

  /** Go's unicode.IsSpace: ASCII and Latin-1 white space plus the rest of
    * Unicode's White_Space property. */
  predicate IsSpace(c: char)
  {
    var n := c as int;
    n == 0x20 || (0x09 <= n <= 0x0D) || n == 0x85 || n == 0xA0
    || n == 0x1680 || (0x2000 <= n <= 0x200A) || n == 0x2028 || n == 0x2029
    || n == 0x202F || n == 0x205F || n == 0x3000
  }

  predicate IsLower(c: char) { 'a' <= c <= 'z' }

  /** ToUpper on one character, for ASCII only: other characters are kept. */
  function UpperChar(c: char): char
  {
    if IsLower(c) then (c as int - 32) as char else c
  }

  /** strings.ToUpper, character by character. */
  function Upper(s: string): string
  {
    seq(|s|, i requires 0 <= i < |s| => UpperChar(s[i]))
  }

  predicate IsUpperCase(s: string)
  {
    forall i :: 0 <= i < |s| ==> !IsLower(s[i])
  }

  predicate IsTrimmed(s: string)
  {
    |s| == 0 || (!IsSpace(s[0]) && !IsSpace(s[|s| - 1]))
  }

  /** A corpus entry as prune compares it: trimmed and upper-cased. */
  predicate IsNormal(s: string)
  {
    IsTrimmed(s) && IsUpperCase(s)
  }

  /** `r` is `s` with a run of `a` leading spaces and a run of trailing spaces cut off. */
  predicate SpacesAround(s: string, a: int, r: string)
  {
    && 0 <= a && a + |r| <= |s|
    && r == s[a..a + |r|]
    && (forall k :: 0 <= k < a ==> IsSpace(s[k]))
    && (forall k :: a + |r| <= k < |s| ==> IsSpace(s[k]))
  }

  /** How many spaces `s` starts with. */
  function LeadingSpaces(s: string): (a: nat)
    ensures a <= |s|
    ensures forall k :: 0 <= k < a ==> IsSpace(s[k])
    ensures a < |s| ==> !IsSpace(s[a])
  {
    if |s| > 0 && IsSpace(s[0]) then 1 + LeadingSpaces(s[1..]) else 0
  }

  /** Where the text of `s` ends: the end of `s` less its trailing spaces,
    * not looking below `a`. */
  function TextEnd(s: string, a: nat): (b: nat)
    requires a <= |s|
    ensures a <= b <= |s|
    ensures forall k :: b <= k < |s| ==> IsSpace(s[k])
    ensures b > a ==> !IsSpace(s[b - 1])
  {
    if |s| > a && IsSpace(s[|s| - 1]) then TextEnd(s[..|s| - 1], a) else |s|
  }

  /** strings.TrimSpace: the result has no space at either end, it is the
    * input with only spaces cut from its ends, and a trimmed input is kept. */
  function TrimSpace(s: string): (r: string)
    ensures IsTrimmed(r)
    ensures SpacesAround(s, LeadingSpaces(s), r)
    ensures IsTrimmed(s) ==> r == s
  {
    var a := LeadingSpaces(s);
    s[a..TextEnd(s, a)]
  }

  /** The normalisation prune applies to every corpus line (TrimSpace, then
    * ToUpper). Its result is normal, so normalising twice changes nothing. */
  function Normalize(s: string): (r: string)
    ensures IsNormal(r)
    ensures IsNormal(s) ==> r == s
    ensures |r| <= |s|
  {
    Upper(TrimSpace(s))
  }

  /** strings.Count for a one-character pattern. */
  function Count(s: string, c: char): (n: nat)
    ensures n <= |s|
    ensures n == 0 <==> c !in s
  {
    if s == [] then 0 else (if s[0] == c then 1 else 0) + Count(s[1..], c)
  }

  /** Where `a` has `c`, `b` has it too: `b` holds at least as many. */
  lemma {:induction false} CountLe(a: string, b: string, c: char)
    requires |a| == |b|
    requires forall k :: 0 <= k < |a| && a[k] == c ==> b[k] == c
    ensures Count(a, c) <= Count(b, c)
  {
    if a != [] {
      CountLe(a[1..], b[1..], c);
    }
  }

  /** As CountLe, and `b` has one more occurrence at `i`: `b` holds strictly more. */
  lemma {:induction false} CountLt(a: string, b: string, c: char, i: nat)
    requires |a| == |b| && i < |a|
    requires forall k :: 0 <= k < |a| && a[k] == c ==> b[k] == c
    requires b[i] == c && a[i] != c
    ensures Count(a, c) < Count(b, c)
  {
    if i == 0 {
      CountLe(a[1..], b[1..], c);
    } else {
      CountLt(a[1..], b[1..], c, i - 1);
    }
  }

  predicate NoDup<T(==)>(s: seq<T>)
  {
    forall i, j :: 0 <= i < j < |s| ==> s[i] != s[j]
  }

  /** A duplicate-free sequence holds each of its elements exactly once. */
  lemma {:induction false} NoDupMultiplicity<T>(s: seq<T>)
    requires NoDup(s)
    ensures forall x :: multiset(s)[x] == if x in s then 1 else 0
  {
    if s != [] {
      var init := s[..|s| - 1];
      assert s == init + [s[|s| - 1]];
      assert NoDup(init);
      NoDupMultiplicity(init);
      assert s[|s| - 1] !in init;
    }
  }

  /** A sequence whose multiset holds nothing twice is duplicate-free. */
  lemma MultiplicityNoDup<T>(s: seq<T>)
    requires forall x :: multiset(s)[x] <= 1
    ensures NoDup(s)
  {
    forall i, j | 0 <= i < j < |s|
      ensures s[i] != s[j]
    {
      var pair := multiset{s[i], s[j]};
      assert s == s[..i] + [s[i]] + s[i + 1..j] + [s[j]] + s[j + 1..];
      assert pair <= multiset(s);
      assert pair[s[i]] <= multiset(s)[s[i]];
    }
  }

  /** Reordering a sequence keeps it duplicate-free and keeps its elements. */
  lemma PermutationKeeps<T>(a: seq<T>, b: seq<T>)
    requires multiset(a) == multiset(b) && NoDup(a)
    ensures NoDup(b)
    ensures forall c :: c in a <==> c in b
  {
    NoDupMultiplicity(a);
    MultiplicityNoDup(b);
    forall c
      ensures c in a <==> c in b
    {
      assert c in a <==> c in multiset(a);
      assert c in b <==> c in multiset(b);
    }
  }

  /** `a` can be obtained from `b` by deleting elements, keeping the order. */
  predicate IsSubsequence<T(==)>(a: seq<T>, b: seq<T>)
    decreases |b|
  {
    if a == [] then true
    else if b == [] then false
    else (a[|a| - 1] == b[|b| - 1] && IsSubsequence(a[..|a| - 1], b[..|b| - 1]))
         || IsSubsequence(a, b[..|b| - 1])
  }
}
