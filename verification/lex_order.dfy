/**
 The ordering `std::string::operator<` uses: lexicographic comparison, one
 character at a time, a proper prefix sorting first. (Dafny's own `<` on
 sequences means "proper prefix", so the order is spelled out here.)
 */
module LexOrder {

  /** Strings hold the bytes of a `std::string` as the characters U+0000 to
      U+00FF, so comparing characters compares the bytes as `unsigned char`,
      as `char_traits<char>::lt` does. */
  function Less(a: string, b: string): (r: bool)
    ensures r ==> a != b
    ensures |a| < |b| && a == b[..|a|] ==> r
    ensures |a| > 0 && |b| > 0 && a[0] != b[0] ==> (r <==> a[0] < b[0])
    decreases |a|
  {
    if |a| == 0 then |b| > 0
    else if |b| == 0 then false
    else if a[0] != b[0] then a[0] < b[0]
    else Less(a[1..], b[1..])
  }

  lemma {:induction false} Irreflexive(a: string)
    ensures !Less(a, a)
    decreases |a|
  {
    if |a| > 0 {
      Irreflexive(a[1..]);
    }
  }

  lemma {:induction false} Transitive(a: string, b: string, c: string)
    requires Less(a, b) && Less(b, c)
    ensures Less(a, c)
    decreases |a|
  {
    if |a| > 0 && a[0] == b[0] && b[0] == c[0] {
      Transitive(a[1..], b[1..], c[1..]);
    }
  }

  /** Any two different strings are ordered one way or the other. */
  lemma {:induction false} Total(a: string, b: string)
    requires a != b
    ensures Less(a, b) || Less(b, a)
    decreases |a|
  {
    if |a| > 0 && |b| > 0 && a[0] == b[0] {
      assert a == [a[0]] + a[1..];
      assert b == [b[0]] + b[1..];
      Total(a[1..], b[1..]);
    }
  }

  lemma {:induction false} Asymmetric(a: string, b: string)
    requires Less(a, b)
    ensures !Less(b, a)
    decreases |a|
  {
    if |a| > 0 && a[0] == b[0] {
      Asymmetric(a[1..], b[1..]);
    }
  }

  /** When two strings agree before index `i` and differ at `i`, the
      characters at `i` decide the order. */
  lemma {:induction false} LessDecidedAtFirstDifference(a: string, b: string, i: nat)
    requires i < |a| && i < |b| && a[..i] == b[..i] && a[i] != b[i]
    ensures Less(a, b) <==> a[i] < b[i]
    decreases i
  {
    if i > 0 {
      assert a[0] == a[..i][0] == b[..i][0] == b[0];
      assert a[1..][..i - 1] == a[..i][1..] == b[..i][1..] == b[1..][..i - 1];
      LessDecidedAtFirstDifference(a[1..], b[1..], i - 1);
    }
  }

  /** A string never sorts before one of its own prefixes (itself included). */
  lemma {:induction false} PrefixNotLess(a: string, b: string)
    requires |b| <= |a| && b == a[..|b|]
    ensures !Less(a, b)
    decreases |b|
  {
    if |b| > 0 {
      assert a[0] == b[0];
      assert b[1..] == a[1..][..|b| - 1];
      PrefixNotLess(a[1..], b[1..]);
    }
  }
}
