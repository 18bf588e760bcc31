/**
 `stringReplaceAll(text, "//", "/")`, the only way the client calls it: every
 run of adjacent '/' in a topic path is collapsed to a single '/'.
 */
module StringReplace {
  import opened Common

  const Search: string := "//"
  const Replacement: string := "/"

  /** `pat` starts at index `i` of `s`. */
  predicate OccursAt(s: string, pat: string, i: nat)
  {
    i + |pat| <= |s| && s[i..i + |pat|] == pat
  }

  predicate NoDoubleSlash(s: string)
  {
    forall i: nat | i < |s| :: !OccursAt(s, Search, i)
  }

  /** `s.find(pat, from)`: the first start index at or after `from`, `None` for `npos`. */
  function Find(s: string, pat: string, from: nat): (r: Option<nat>)
    ensures r.Some? ==> from <= r.value && OccursAt(s, pat, r.value)
    ensures r.Some? ==> forall j: nat | from <= j < r.value :: !OccursAt(s, pat, j)
    ensures r.None? ==> forall j: nat | from <= j :: !OccursAt(s, pat, j)
    decreases |s| - from
  {
    if from + |pat| > |s| then None
    else if s[from..from + |pat|] == pat then Some(from)
    else Find(s, pat, from + 1)
  }

  lemma DoubleSlashAt(s: string, i: nat)
    ensures OccursAt(s, Search, i) <==> i + 1 < |s| && s[i] == '/' && s[i + 1] == '/'
  {
    if i + 1 < |s| && s[i] == '/' && s[i + 1] == '/' {
      assert s[i..i + 2] == Search;
    }
  }

  /** Reference definition of the collapse: a '/' followed by another '/' is dropped. */
  function Collapse(s: string): (r: string)
    ensures NoDoubleSlash(r)
    ensures |r| <= |s|
    ensures |s| > 0 ==> |r| > 0 && r[0] == s[0]
  {
    if |s| < 2 then
      assert forall i: nat | i < |s| :: !OccursAt(s, Search, i);
      s
    else if s[0] == '/' && s[1] == '/' then
      Collapse(s[1..])
    else
      var tail := Collapse(s[1..]);
      var r := [s[0]] + tail;
      forall i: nat | i < |r| ensures !OccursAt(r, Search, i) {
        DoubleSlashAt(r, i);
        if i > 0 {
          DoubleSlashAt(tail, i - 1);
        }
      }
      r
  }

  /** `s` with every '/' removed: what collapsing must leave alone. */
  function Unslashed(s: string): string
  {
    if |s| == 0 then [] else (if s[0] == '/' then [] else [s[0]]) + Unslashed(s[1..])
  }

  lemma {:induction false} UnslashedAppend(a: string, b: string)
    ensures Unslashed(a + b) == Unslashed(a) + Unslashed(b)
    decreases |a|
  {
    if |a| > 0 {
      assert (a + b)[1..] == a[1..] + b;
      UnslashedAppend(a[1..], b);
    } else {
      assert a + b == b;
    }
  }

  /** Collapsing only ever removes '/' characters: all others survive, in order. */
  lemma {:induction false} CollapseKeepsText(s: string)
    ensures Unslashed(Collapse(s)) == Unslashed(s)
    decreases |s|
  {
    if |s| >= 2 {
      CollapseKeepsText(s[1..]);
      if !(s[0] == '/' && s[1] == '/') {
        assert ([s[0]] + Collapse(s[1..]))[1..] == Collapse(s[1..]);
      }
    }
  }

  /** A string with no "//" is left as it is. */
  lemma {:induction false} CollapseNoop(s: string)
    requires NoDoubleSlash(s)
    ensures Collapse(s) == s
    decreases |s|
  {
    if |s| >= 2 {
      DoubleSlashAt(s, 0);
      forall i: nat | i < |s| - 1 ensures !OccursAt(s[1..], Search, i) {
        DoubleSlashAt(s, i + 1);
        DoubleSlashAt(s[1..], i);
      }
      CollapseNoop(s[1..]);
      assert s == [s[0]] + s[1..];
    }
  }

  lemma CollapseIdempotent(s: string)
    ensures Collapse(Collapse(s)) == Collapse(s)
  {
    CollapseNoop(Collapse(s));
  }

  /** The strings collapsing leaves unchanged are exactly those without "//". */
  lemma CollapseFixedPoints(s: string)
    ensures Collapse(s) == s <==> NoDoubleSlash(s)
  {
    if NoDoubleSlash(s) {
      CollapseNoop(s);
    }
  }

  /** One replacement step of the loop: "//" at `p` becomes "/". */
  function ReplaceAt(s: string, p: nat): string
    requires p + |Search| <= |s|
  {
    s[..p] + Replacement + s[p + |Search|..]
  }

  /** One replacement step does not change what the string collapses to. */
  lemma {:induction false} CollapseReplaceAt(s: string, p: nat)
    requires OccursAt(s, Search, p)
    ensures Collapse(ReplaceAt(s, p)) == Collapse(s)
    decreases p
  {
    DoubleSlashAt(s, p);
    var t := ReplaceAt(s, p);
    if p == 0 {
      assert t == s[1..];
    } else {
      assert t[0] == s[0];
      assert t[1] == s[1];
      assert t[1..] == ReplaceAt(s[1..], p - 1);
      DoubleSlashAt(s[1..], p - 1);
      CollapseReplaceAt(s[1..], p - 1);
    }
  }

  /** Replacing at the first "//" creates none before the replacement point. */
  lemma ReplaceKeepsPrefixClear(s: string, p: nat)
    requires OccursAt(s, Search, p)
    requires forall j: nat | j < p :: !OccursAt(s, Search, j)
    ensures forall j: nat | j < p :: !OccursAt(ReplaceAt(s, p), Search, j)
  {
    var t := ReplaceAt(s, p);
    DoubleSlashAt(s, p);
    forall j: nat | j < p ensures !OccursAt(t, Search, j) {
      DoubleSlashAt(s, j);
      DoubleSlashAt(t, j);
    }
  }

  /**
   The source's loop: find "//", replace it by "/", search again from
   `pos + |replacement| - 1`, i.e. from the replacement point itself, so a run
   of slashes is consumed one character per iteration.
   */
  method StringReplaceAll(text: string) returns (data: string)
    ensures data == Collapse(text)
    ensures NoDoubleSlash(data)
    ensures |data| <= |text|
  {
    data := text;
    var pos := Find(data, Search, 0);
    while pos.Some?
      invariant pos.Some? ==> OccursAt(data, Search, pos.value)
      invariant pos.Some? ==> forall j: nat | j < pos.value :: !OccursAt(data, Search, j)
      invariant pos.None? ==> NoDoubleSlash(data)
      invariant Collapse(data) == Collapse(text)
      invariant |data| <= |text|
      decreases |data|
    {
      var p := pos.value;
      CollapseReplaceAt(data, p);
      ReplaceKeepsPrefixClear(data, p);
      data := ReplaceAt(data, p);
      pos := Find(data, Search, p + |Replacement| - 1);
    }
    CollapseNoop(data);
  }
}
