/** C strings and their order: strcmp and std::string_view::compare, which compare unsigned bytes. */
module Names {
  import opened Bytes

  /** The bytes of s before its first NUL: what a C string function sees of it. */
  function CPrefix(s: seq<Byte>): (r: seq<Byte>)
    ensures |r| <= |s| && r == s[..|r|]
    ensures |r| < |s| ==> s[|r|] == 0
    ensures forall i | 0 <= i < |r| :: s[i] != 0
  {
    if s == [] || s[0] == 0 then [] else [s[0]] + CPrefix(s[1..])
  }

  /** The C string at an address. */
  function CString(b: seq<Byte>, p: nat): seq<Byte>
    requires p <= |b|
  {
    CPrefix(b[p..])
  }

  lemma PrefixUnique(s: seq<Byte>, n: nat)
    requires n <= |s| && (n < |s| ==> s[n] == 0) && forall i | 0 <= i < n :: s[i] != 0
    ensures CPrefix(s) == s[..n]
  {
  }

  /** Text followed by a NUL is seen up to its own first NUL. */
  lemma TerminatedText(b: seq<Byte>, p: nat, name: seq<Byte>)
    requires p + |name| < |b| && b[p..p + |name|] == name && b[p + |name|] == 0
    ensures CString(b, p) == CPrefix(name)
  {
    hide CPrefix;
    var n := |CPrefix(name)|;
    var t := b[p..];
    assert t[..|name|] == name by { assert t[..|name|] == b[p..p + |name|]; }
    forall i | 0 <= i < n ensures t[i] == name[i] && name[i] != 0 {
      assert t[..|name|][i] == t[i];
    }
    assert t[n] == 0 by { if n < |name| { assert t[..|name|][n] == t[n]; } else { assert t[n] == b[p + n]; } }
    PrefixUnique(t, n);
    assert t[..n] == t[..|name|][..n];
  }

  /** Lexicographic order, a proper prefix first. */
  predicate Less(a: seq<Byte>, b: seq<Byte>) {
    b != [] && (a == [] || a[0] < b[0] || (a[0] == b[0] && Less(a[1..], b[1..])))
  }

  /** a is a proper prefix of b, or smaller in the first byte in which they differ, which is byte k. */
  ghost predicate FirstDifference(a: seq<Byte>, b: seq<Byte>, k: nat) {
    k <= |a| && k < |b| && a[..k] == b[..k] && (k == |a| || a[k] < b[k])
  }

  /** The order of strings is that of their bytes. */
  lemma {:induction false} LessIff(a: seq<Byte>, b: seq<Byte>)
    ensures Less(a, b) <==> exists k: nat :: FirstDifference(a, b, k)
  {
    if a != [] && b != [] && a[0] == b[0] {
      LessIff(a[1..], b[1..]);
      if Less(a, b) {
        var k: nat :| FirstDifference(a[1..], b[1..], k);
        assert a[..k + 1] == [a[0]] + a[1..][..k] && b[..k + 1] == [b[0]] + b[1..][..k];
        assert FirstDifference(a, b, k + 1);
      }
      if k: nat :| FirstDifference(a, b, k) {
        assert k > 0;
        assert a[1..][..k - 1] == a[..k][1..] && b[1..][..k - 1] == b[..k][1..];
        assert FirstDifference(a[1..], b[1..], k - 1);
      }
    } else {
      if b != [] && (a == [] || a[0] < b[0]) {
        assert FirstDifference(a, b, 0);
      } else if b != [] {
        forall k: nat | 0 < k <= |a| && k < |b| ensures a[..k] != b[..k] {
          assert a[..k][0] == a[0] && b[..k][0] == b[0];
        }
      }
    }
  }

  lemma {:induction false} LessTrans(a: seq<Byte>, b: seq<Byte>, c: seq<Byte>)
    requires !Less(b, a) && !Less(c, b)
    ensures !Less(c, a)
  {
    if Less(c, a) && c != [] && b != [] && a[0] == b[0] == c[0] {
      LessTrans(a[1..], b[1..], c[1..]);
    }
  }

  lemma {:induction false} LessTotal(a: seq<Byte>, b: seq<Byte>)
    ensures Less(a, b) <==> a != b && !Less(b, a)
  {
    if a != [] && b != [] && a[0] == b[0] {
      LessTotal(a[1..], b[1..]);
      assert a == [a[0]] + a[1..] && b == [b[0]] + b[1..];
    } else if a != [] && b != [] {
      assert a != b;
    }
  }

  /** The offsets xs name C strings in non-decreasing order. */
  ghost predicate InOrder(b: seq<Byte>, base: nat, xs: seq<nat>)
    requires forall i | 0 <= i < |xs| :: base + xs[i] <= |b|
  {
    forall i, j | 0 <= i < j < |xs| :: NotAfter(b, base + xs[i], base + xs[j])
  }

  predicate NotAfter(b: seq<Byte>, p: nat, q: nat)
    requires p <= |b| && q <= |b|
  {
    !Less(CString(b, q), CString(b, p))
  }

  ghost predicate AllIn(b: seq<Byte>, base: nat, xs: seq<nat>) {
    forall i | 0 <= i < |xs| :: base + xs[i] <= |b|
  }

  /** Sorts offsets by the C strings they point at. */
  method SortByName(b: seq<Byte>, base: nat, xs: seq<nat>) returns (ys: seq<nat>)
    requires AllIn(b, base, xs)
    ensures multiset(ys) == multiset(xs) && |ys| == |xs| && AllIn(b, base, ys) && InOrder(b, base, ys)
  {
    ys := [];
    for i := 0 to |xs|
      invariant |ys| == i && multiset(ys) == multiset(xs[..i]) && AllIn(b, base, ys) && InOrder(b, base, ys)
    {
      assert xs[..i + 1] == xs[..i] + [xs[i]];
      ys := Insert(b, base, ys, xs[i]);
    }
    assert xs[..|xs|] == xs;
  }

  method Insert(b: seq<Byte>, base: nat, xs: seq<nat>, x: nat) returns (ys: seq<nat>)
    requires AllIn(b, base, xs) && InOrder(b, base, xs) && base + x <= |b|
    ensures multiset(ys) == multiset(xs) + multiset{x} && |ys| == |xs| + 1 && AllIn(b, base, ys) && InOrder(b, base, ys)
  {
    hide CString, Less;
    var k: nat := |xs|;
    while k > 0 && Less(CString(b, base + x), CString(b, base + xs[k - 1]))
      invariant k <= |xs|
      invariant forall i | k <= i < |xs| :: NotAfter(b, base + x, base + xs[i])
    {
      LessTotal(CString(b, base + x), CString(b, base + xs[k - 1]));
      k := k - 1;
    }
    if k > 0 { assert NotAfter(b, base + xs[k - 1], base + x); }
    ys := xs[..k] + [x] + xs[k..];
    assert xs == xs[..k] + xs[k..];
    Inserted(b, base, xs, k, x);
  }

  lemma Inserted(b: seq<Byte>, base: nat, xs: seq<nat>, k: nat, x: nat)
    requires AllIn(b, base, xs) && InOrder(b, base, xs) && base + x <= |b| && k <= |xs|
    requires k > 0 ==> NotAfter(b, base + xs[k - 1], base + x)
    requires forall i | k <= i < |xs| :: NotAfter(b, base + x, base + xs[i])
    ensures AllIn(b, base, xs[..k] + [x] + xs[k..]) && InOrder(b, base, xs[..k] + [x] + xs[k..])
  {
    hide CString, Less;
    var ys := xs[..k] + [x] + xs[k..];
    forall i, j | 0 <= i < j < |ys| ensures NotAfter(b, base + ys[i], base + ys[j]) {
      if j == k && i < k - 1 {
        assert NotAfter(b, base + xs[i], base + xs[k - 1]);
        LessTrans(CString(b, base + xs[i]), CString(b, base + xs[k - 1]), CString(b, base + x));
      } else if i < k && j > k {
        assert NotAfter(b, base + xs[i], base + xs[j - 1]);
      } else if j < k {
        assert NotAfter(b, base + xs[i], base + xs[j]);
      } else if i > k {
        assert NotAfter(b, base + xs[i - 1], base + xs[j - 1]);
      }
    }
  }

  /** std::lower_bound by name, and FieldByName's comparison of what it finds. */
  method FindName(b: seq<Byte>, base: nat, xs: seq<nat>, name: seq<Byte>) returns (found: bool, at: nat)
    requires AllIn(b, base, xs) && InOrder(b, base, xs)
    ensures found ==> at < |xs| && CString(b, base + xs[at]) == name
    ensures !found ==> forall i | 0 <= i < |xs| :: CString(b, base + xs[i]) != name
  {
    hide CString, Less;
    var len: nat := |xs|;
    at := 0;
    assert AllIn(b, base, xs);
    while len > 0
      invariant at + len <= |xs|
      invariant forall i | 0 <= i < at :: Less(CString(b, base + xs[i]), name)
      invariant forall i | at + len <= i < |xs| :: !Less(CString(b, base + xs[i]), name)
    {
      var half := len / 2;
      if Less(CString(b, base + xs[at + half]), name) {
        forall i | 0 <= i <= at + half ensures Less(CString(b, base + xs[i]), name) {
          if i < at + half { LessDown(b, base + xs[i], base + xs[at + half], name); }
        }
        at, len := at + half + 1, len - half - 1;
      } else {
        forall i | at + half <= i < |xs| ensures !Less(CString(b, base + xs[i]), name) {
          if i > at + half { LessDown(b, base + xs[at + half], base + xs[i], name); }
        }
        len := half;
      }
    }
    if at == |xs| {
      forall i | 0 <= i < |xs| ensures CString(b, base + xs[i]) != name { LessTotal(CString(b, base + xs[i]), name); }
      return false, at;
    }
    found := CString(b, base + xs[at]) == name;
    if !found {
      LessTotal(CString(b, base + xs[at]), name);
      forall i | 0 <= i < |xs| ensures CString(b, base + xs[i]) != name {
        LessTotal(CString(b, base + xs[i]), name);
        if i > at {
          assert NotAfter(b, base + xs[at], base + xs[i]);
        }
      }
    }
  }

  /** Whatever is not after a smaller string is smaller. */
  lemma LessDown(b: seq<Byte>, p: nat, q: nat, name: seq<Byte>)
    requires p <= |b| && q <= |b| && NotAfter(b, p, q)
    ensures Less(CString(b, q), name) ==> Less(CString(b, p), name)
  {
    LessTotal(CString(b, p), name);
    LessTotal(CString(b, q), name);
    if !Less(CString(b, p), name) && Less(CString(b, q), name) {
      LessTrans(name, CString(b, p), CString(b, q));
    }
  }
}
