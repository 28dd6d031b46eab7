/** 64-bit 1-Wire ROM numbers as bit strings, least significant bit of byte 0 first,
    and the order in which a depth-first walk that takes 0 before 1 meets them. */
module OneWireRom {

  const ROM_BITS := 64

  type Rom = s: seq<bool> | |s| == ROM_BITS witness seq(ROM_BITS, _ => false)

  /** `a` and `b` agree up to bit `i`, where `a` has 0 and `b` has 1. */
  ghost predicate SplitsAt(a: Rom, b: Rom, i: nat) {
    i < ROM_BITS && a[..i] == b[..i] && !a[i] && b[i]
  }

  /** The bit-lexicographic order, 0 before 1. */
  ghost predicate Before(a: Rom, b: Rom) {
    exists i: nat :: SplitsAt(a, b, i)
  }

  ghost predicate IsLeast(r: Rom, devices: set<Rom>) {
    r in devices && forall d :: d in devices && d != r ==> Before(r, d)
  }

  /** `r` is the next device after `p`: nothing in `devices` lies strictly between them. */
  ghost predicate IsSuccessor(r: Rom, p: Rom, devices: set<Rom>) {
    && r in devices
    && Before(p, r)
    && forall d :: d in devices && Before(p, d) && d != r ==> Before(r, d)
  }

  /** `order` lists every device exactly once, in increasing order. */
  ghost predicate Enumerates(order: seq<Rom>, devices: set<Rom>) {
    && (forall d :: d in order <==> d in devices)
    && (forall i, j :: 0 <= i < j < |order| ==> Before(order[i], order[j]))
  }

  lemma SharedPrefix(a: Rom, b: Rom, n: nat, m: nat)
    requires m <= n <= ROM_BITS && a[..n] == b[..n]
    ensures a[..m] == b[..m]
    ensures m < n ==> a[m] == b[m]
  {
    assert a[..m] == a[..n][..m] && b[..m] == b[..n][..m];
    assert m < n ==> a[m] == a[..n][m] && b[m] == b[..n][m];
  }

  lemma LongerPrefix(a: Rom, b: Rom, n: nat)
    requires n < ROM_BITS
    ensures a[..n + 1] == b[..n + 1] <==> a[..n] == b[..n] && a[n] == b[n]
  {
    assert a[..n + 1] == a[..n] + [a[n]] && b[..n + 1] == b[..n] + [b[n]];
  }

  lemma BeforeIsTransitive(a: Rom, b: Rom, c: Rom)
    requires Before(a, b) && Before(b, c)
    ensures Before(a, c)
  {
    var i: nat :| SplitsAt(a, b, i);
    var j: nat :| SplitsAt(b, c, j);
    var k := if i < j then i else j;
    assert a[..k] == a[..i][..k] && b[..k] == b[..i][..k] && b[..k] == b[..j][..k] && c[..k] == c[..j][..k];
    assert i < j ==> b[..j][i] == c[..j][i];
    assert j < i ==> a[..i][j] == b[..i][j];
    assert SplitsAt(a, c, k);
  }

  lemma {:induction false} FirstDifference(a: Rom, b: Rom, i: nat)
    requires i <= ROM_BITS && a[..i] == b[..i] && a != b
    ensures Before(a, b) || Before(b, a)
    decreases ROM_BITS - i
  {
    assert a == a[..i] + a[i..] && b == b[..i] + b[i..];
    assert i < ROM_BITS;
    if a[i] == b[i] {
      assert a[..i + 1] == a[..i] + [a[i]] && b[..i + 1] == b[..i] + [b[i]];
      FirstDifference(a, b, i + 1);
    } else {
      assert SplitsAt(a, b, i) || SplitsAt(b, a, i);
    }
  }

  lemma BeforeIsTotal(a: Rom, b: Rom)
    ensures a == b || Before(a, b) || Before(b, a)
    ensures !(Before(a, b) && Before(b, a))
  {
    if a != b {
      FirstDifference(a, b, 0);
    }
    if Before(a, b) && Before(b, a) {
      BeforeIsTransitive(a, b, a);
    }
  }

  /** Every non-empty device set has a least ROM. */
  lemma {:induction false} LeastExists(devices: set<Rom>) returns (r: Rom)
    requires devices != {}
    ensures IsLeast(r, devices)
    decreases devices
  {
    r :| r in devices;
    if devices != {r} {
      var rest := devices - {r};
      var s := LeastExists(rest);
      BeforeIsTotal(r, s);
      if Before(r, s) {
        forall d | d in devices && d != r ensures Before(r, d) {
          if d != s { BeforeIsTransitive(r, s, d); }
        }
      } else {
        r := s;
      }
    }
  }

  /** Every finite device set has an increasing listing. */
  lemma {:induction false} EnumerationExists(devices: set<Rom>) returns (order: seq<Rom>)
    ensures Enumerates(order, devices)
    decreases devices
  {
    if devices == {} {
      order := [];
    } else {
      var r := LeastExists(devices);
      var rest := EnumerationExists(devices - {r});
      order := [r] + rest;
      forall i, j | 0 <= i < j < |order| ensures Before(order[i], order[j]) {
        assert order[j] == rest[j - 1] && rest[j - 1] in devices - {r};
        if i > 0 { assert order[i] == rest[i - 1]; }
      }
      forall d | d in devices ensures d in order {
        if d != r { assert d in rest; }
      }
    }
  }

  lemma EnumerationStarts(order: seq<Rom>, devices: set<Rom>, r: Rom)
    requires Enumerates(order, devices) && IsLeast(r, devices)
    ensures order != [] && order[0] == r
  {
    assert r in order;
    var i :| 0 <= i < |order| && order[i] == r;
    assert order[0] in devices;
    BeforeIsTotal(r, order[0]);
  }

  lemma EnumerationEnds(order: seq<Rom>, devices: set<Rom>, k: nat)
    requires Enumerates(order, devices) && k < |order|
    ensures k + 1 < |order| <==> exists d :: d in devices && Before(order[k], d)
  {
    if k + 1 < |order| {
      assert order[k + 1] in devices && Before(order[k], order[k + 1]);
    }
    if d :| d in devices && Before(order[k], d) {
      EnumerationPosition(order, devices, k, d);
    }
  }

  lemma EnumerationPosition(order: seq<Rom>, devices: set<Rom>, k: nat, d: Rom)
    requires Enumerates(order, devices) && k < |order| && d in devices && Before(order[k], d)
    ensures exists i :: k < i < |order| && order[i] == d
  {
    var i :| 0 <= i < |order| && order[i] == d;
    BeforeIsTotal(order[k], d);
  }

  lemma EnumerationContinues(order: seq<Rom>, devices: set<Rom>, k: nat, r: Rom)
    requires Enumerates(order, devices) && k < |order| && IsSuccessor(r, order[k], devices)
    ensures k + 1 < |order| && order[k + 1] == r
  {
    EnumerationPosition(order, devices, k, r);
    var i :| k < i < |order| && order[i] == r;
    var n := order[k + 1];
    assert n in devices && Before(order[k], n);
    BeforeIsTotal(r, n);
    assert i == k + 1 || Before(order[k + 1], order[i]);
  }

  /** And no other one. */
  lemma {:induction false} EnumerationIsUnique(a: seq<Rom>, b: seq<Rom>, devices: set<Rom>)
    requires Enumerates(a, devices) && Enumerates(b, devices)
    ensures a == b
    decreases |a|
  {
    if devices == {} {
      NotEmpty(a);
      NotEmpty(b);
    } else {
      var r := LeastExists(devices);
      EnumerationStarts(a, devices, r);
      EnumerationStarts(b, devices, r);
      WithoutFirst(a, devices);
      WithoutFirst(b, devices);
      EnumerationIsUnique(a[1..], b[1..], devices - {r});
    }
  }

  lemma NotEmpty(order: seq<Rom>)
    ensures order == [] || exists d :: d in order
  {
    if order != [] { assert order[0] in order; }
  }

  lemma WithoutFirst(order: seq<Rom>, devices: set<Rom>)
    requires Enumerates(order, devices) && order != []
    ensures Enumerates(order[1..], devices - {order[0]})
  {
    assert order == [order[0]] + order[1..];
    forall i | 1 <= i < |order| ensures order[i] != order[0] {
      BeforeIsTotal(order[0], order[0]);
    }
  }
}
