/** Text operations the loader and the dashboard rely on: Python's str.strip() and the
    code-point ordering that sorted() applies to strings. */
module Strings {
  import opened Seqs

  /** The characters Python's str.strip() removes when called without arguments
      (the characters for which str.isspace() holds). */
  predicate IsSpace(c: char)
  {
    var n := c as int;
    n == 0x20 || 0x09 <= n <= 0x0D || 0x1C <= n <= 0x1F || n == 0x85 || n == 0xA0 ||
    n == 0x1680 || 0x2000 <= n <= 0x200A || n == 0x2028 || n == 0x2029 ||
    n == 0x202F || n == 0x205F || n == 0x3000
  }

  predicate AllSpace(s: string)
  {
    forall i :: 0 <= i < |s| ==> IsSpace(s[i])
  }

  /** No whitespace at either end. */
  predicate Stripped(s: string)
  {
    s == [] || (!IsSpace(s[0]) && !IsSpace(s[|s| - 1]))
  }

  /** s without its leading whitespace: a suffix of s. */
  function TrimStart(s: string): (r: string)
    ensures |r| <= |s| && r == s[|s| - |r|..]
    ensures AllSpace(s[..|s| - |r|])
    ensures r == [] || !IsSpace(r[0])
  {
    if s != [] && IsSpace(s[0]) then TrimStart(s[1..]) else s
  }

  /** s without its trailing whitespace: a prefix of s. */
  function TrimEnd(s: string): (r: string)
    ensures |r| <= |s| && r == s[..|r|]
    ensures AllSpace(s[|r|..])
    ensures r == [] || !IsSpace(r[|r| - 1])
  {
    if s != [] && IsSpace(s[|s| - 1]) then TrimEnd(s[..|s| - 1]) else s
  }

  /** Python's s.strip(): s with leading and trailing whitespace removed (TrimSplit shows that
      what is removed is whitespace). */
  function Trim(s: string): (r: string)
    ensures Stripped(r) && |r| <= |s|
  {
    TrimEnd(TrimStart(s))
  }

  lemma {:induction false} TrimStartSkipsSpace(w: string, x: string)
    requires AllSpace(w)
    ensures TrimStart(w + x) == TrimStart(x)
  {
    if w != [] {
      assert (w + x)[0] == w[0];
      assert (w + x)[1..] == w[1..] + x;
      TrimStartSkipsSpace(w[1..], x);
    } else {
      assert w + x == x;
    }
  }

  lemma {:induction false} TrimEndSkipsSpace(x: string, w: string)
    requires AllSpace(w)
    ensures TrimEnd(x + w) == TrimEnd(x)
  {
    if w != [] {
      assert (x + w)[|x + w| - 1] == w[|w| - 1];
      assert (x + w)[..|x + w| - 1] == x + w[..|w| - 1];
      TrimEndSkipsSpace(x, w[..|w| - 1]);
    } else {
      assert x + w == x;
    }
  }

  /** Trim is determined by its contract: whenever s is whitespace, then t, then whitespace,
      and t has no whitespace at either end, s.strip() is t. */
  lemma {:induction false} TrimUnique(w1: string, t: string, w2: string)
    requires AllSpace(w1) && AllSpace(w2) && Stripped(t)
    ensures Trim(w1 + t + w2) == t
  {
    assert w1 + t + w2 == w1 + (t + w2);
    TrimStartSkipsSpace(w1, t + w2);
    if t == [] {
      assert t + w2 == w2;
      TrimStartSkipsSpace(w2, []);
      assert w2 + [] == w2;
    } else {
      assert (t + w2)[0] == t[0];
      assert TrimStart(t + w2) == t + w2;
      TrimEndSkipsSpace(t, w2);
    }
  }

  lemma TrimOfStripped(t: string)
    requires Stripped(t)
    ensures Trim(t) == t
  {
    assert [] + t + [] == t;
    TrimUnique([], t, []);
  }

  /** Surrounding whitespace never changes the stripped value (so " Yes " strips to "Yes"). */
  lemma TrimIgnoresPadding(w1: string, s: string, w2: string)
    requires AllSpace(w1) && AllSpace(w2)
    ensures Trim(w1 + s + w2) == Trim(s)
  {
    var left, right := TrimSplit(s);
    var r := Trim(s);
    PadAssoc(w1, left, r, right, w2);
    AllSpaceConcat(w1, left);
    AllSpaceConcat(right, w2);
    TrimUnique(w1 + left, r, right + w2);
  }

  /** The whitespace runs that Trim removes from each end of s. */
  lemma {:induction false} TrimSplit(s: string) returns (left: string, right: string)
    ensures s == left + Trim(s) + right
    ensures AllSpace(left) && AllSpace(right)
  {
    var t := TrimStart(s);
    var r := TrimEnd(t);
    assert Trim(s) == r;
    left := s[..|s| - |t|];
    right := t[|r|..];
    assert AllSpace(left) && AllSpace(right);
    SplitAt(s, |s| - |t|);
    SplitAt(t, |r|);
    Assoc3(left, r, right);
  }

  lemma Assoc3(a: string, b: string, c: string)
    ensures a + (b + c) == a + b + c
  {
  }

  lemma SplitAt(s: string, k: nat)
    requires k <= |s|
    ensures s == s[..k] + s[k..]
  {
  }

  lemma PadAssoc(w1: string, a: string, r: string, b: string, w2: string)
    ensures w1 + (a + r + b) + w2 == (w1 + a) + r + (b + w2)
  {
  }

  lemma AllSpaceConcat(a: string, b: string)
    requires AllSpace(a) && AllSpace(b)
    ensures AllSpace(a + b)
  {
    forall i | 0 <= i < |a + b| ensures IsSpace((a + b)[i]) {
      if i >= |a| { assert (a + b)[i] == b[i - |a|]; }
    }
  }

  /** Stripping twice is the same as stripping once. */
  lemma TrimIdempotent(s: string)
    ensures Trim(Trim(s)) == Trim(s)
  {
    var r := Trim(s);
    assert [] + r + [] == r;
    TrimUnique([], r, []);
  }

  // ---------------------------------------------------------------------------
  // Ordering of strings, as Python compares str values: lexicographically by code point.

  predicate Less(a: string, b: string)
  {
    if a == [] then b != []
    else if b == [] then false
    else if a[0] != b[0] then a[0] < b[0]
    else Less(a[1..], b[1..])
  }

  lemma {:induction false} LessIrreflexive(a: string)
    ensures !Less(a, a)
  {
    if a != [] {
      LessIrreflexive(a[1..]);
    }
  }

  lemma {:induction false} LessTransitive(a: string, b: string, c: string)
    requires Less(a, b) && Less(b, c)
    ensures Less(a, c)
  {
    if a != [] && b != [] && c != [] && a[0] == b[0] && b[0] == c[0] {
      LessTransitive(a[1..], b[1..], c[1..]);
    }
  }

  lemma {:induction false} LessTotal(a: string, b: string)
    requires a != b
    ensures Less(a, b) || Less(b, a)
  {
    if a != [] && b != [] && a[0] == b[0] {
      assert a == [a[0]] + a[1..] && b == [b[0]] + b[1..];
      LessTotal(a[1..], b[1..]);
    }
  }

  lemma LessAsymmetric(a: string, b: string)
    requires Less(a, b)
    ensures !Less(b, a)
  {
    if Less(b, a) {
      LessTransitive(a, b, a);
      LessIrreflexive(a);
    }
  }

  /** Strictly increasing, hence free of duplicates. */
  predicate StrictlySorted(s: seq<string>)
  {
    forall i, j :: 0 <= i < j < |s| ==> Less(s[i], s[j])
  }

  /** Puts x into its place in a strictly sorted list, unless it is already there. */
  function Insert(s: seq<string>, x: string): (r: seq<string>)
    requires StrictlySorted(s)
    ensures StrictlySorted(r)
    ensures forall y :: y in r <==> y in s || y == x
  {
    if s == [] then [x]
    else if x == s[0] then s
    else if Less(x, s[0]) then
      assert forall j :: 0 < j < |s| ==> Less(x, s[j]) by {
        forall j | 0 < j < |s| ensures Less(x, s[j]) { LessTransitive(x, s[0], s[j]); }
      }
      [x] + s
    else
      LessTotal(x, s[0]);
      var rest := Insert(s[1..], x);
      assert forall y :: y in rest ==> Less(s[0], y);
      [s[0]] + rest
  }

  /** sorted(set(xs)): the distinct elements of xs in increasing order. */
  function SortedDistinct(xs: seq<string>): (r: seq<string>)
    ensures StrictlySorted(r)
    ensures forall y :: y in r <==> y in xs
  {
    if xs == [] then [] else Insert(SortedDistinct(xs[1..]), xs[0])
  }

  /** A strictly sorted list is determined by its set of elements. */
  lemma {:induction false} SortedUnique(a: seq<string>, b: seq<string>)
    requires StrictlySorted(a) && StrictlySorted(b)
    requires forall y :: y in a <==> y in b
    ensures a == b
  {
    if a == [] {
      HeadIsElement(b);
    } else {
      assert a[0] in b;
      assert b != [];
      assert b[0] in a;
      if a[0] != b[0] {
        var i :| 0 <= i < |b| && b[i] == a[0];
        var j :| 0 <= j < |a| && a[j] == b[0];
        assert Less(b[0], a[0]);
        assert Less(a[0], b[0]);
        LessAsymmetric(a[0], b[0]);
        assert false;
      }
      forall y ensures y in a[1..] <==> y in b[1..] {
        if y in a[1..] {
          var k :| 0 <= k < |a| - 1 && a[1..][k] == y;
          LessIrreflexive(a[0]);
          assert Less(a[0], a[k + 1]);
          assert y in b;
          var m :| 0 <= m < |b| && b[m] == y;
          assert m != 0;
          assert b[1..][m - 1] == y;
        }
        if y in b[1..] {
          var k :| 0 <= k < |b| - 1 && b[1..][k] == y;
          LessIrreflexive(b[0]);
          assert Less(b[0], b[k + 1]);
          assert y in a;
          var m :| 0 <= m < |a| && a[m] == y;
          assert m != 0;
          assert a[1..][m - 1] == y;
        }
      }
      SortedUnique(a[1..], b[1..]);
      assert a == [a[0]] + a[1..] && b == [b[0]] + b[1..];
    }
  }
}
