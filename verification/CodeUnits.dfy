/** JavaScript strings: sequences of 16-bit code units, compared unit by unit. */
module CodeUnits {
  import opened Sorting

  type Unit = c: int | 0 <= c < 0x10000

  type Text = seq<Unit>

  predicate Less(a: Text, b: Text) {
    b != [] && (a == [] || a[0] < b[0] || (a[0] == b[0] && Less(a[1..], b[1..])))
  }

  /** `a` and `b` agree up to `n`, where `a` has ended or has the smaller unit. */
  predicate Decides(a: Text, b: Text, n: nat) {
    n <= |a| && n < |b| && a[..n] == b[..n] && (n == |a| || a[n] < b[n])
  }

  lemma {:induction false} LessExactly(a: Text, b: Text)
    ensures Less(a, b) <==> exists n: nat :: Decides(a, b, n)
    decreases |a|
  {
    if a == [] || b == [] || a[0] != b[0] {
      assert b != [] ==> (Decides(a, b, 0) <==> a == [] || a[0] < b[0]);
      assert forall n: nat :: Decides(a, b, n) && n > 0 ==> a[..n][0] == a[0] && b[..n][0] == b[0];
    } else {
      LessExactly(a[1..], b[1..]);
      if n: nat :| Decides(a[1..], b[1..], n) {
        assert a[..n + 1] == [a[0]] + a[1..][..n] && b[..n + 1] == [b[0]] + b[1..][..n];
        assert Decides(a, b, n + 1);
      }
      if n: nat :| Decides(a, b, n) {
        assert a[1..][..n - 1] == a[..n][1..] && b[1..][..n - 1] == b[..n][1..];
        assert Decides(a[1..], b[1..], n - 1);
      }
    }
  }

  lemma {:induction false} LessTotal(a: Text, b: Text)
    ensures Less(a, b) || a == b || Less(b, a)
    ensures !(Less(a, b) && Less(b, a)) && (a == b ==> !Less(a, b))
    decreases |a|
  {
    if a != [] && b != [] {
      LessTotal(a[1..], b[1..]);
      assert a == [a[0]] + a[1..] && b == [b[0]] + b[1..];
    }
  }

  lemma {:induction false} LessTransitive(a: Text, b: Text, c: Text)
    requires Less(a, b) && Less(b, c)
    ensures Less(a, c)
    decreases |a|
  {
    if a != [] && a[0] == b[0] == c[0] {
      LessTransitive(a[1..], b[1..], c[1..]);
    }
  }

  lemma {:induction false} LessOrders()
    ensures Order(Less)
    ensures forall a, b :: !Less(a, b) && !Less(b, a) ==> a == b
  {
    forall a, b ensures !Less(a, a) && (!Less(a, b) && !Less(b, a) ==> a == b) {
      LessTotal(a, a);
      LessTotal(a, b);
    }
    forall a, b, c | Less(a, b) && Less(b, c) ensures Less(a, c) {
      LessTransitive(a, b, c);
    }
    forall a, b, c | !Less(a, b) && !Less(b, c) ensures !Less(a, c) {
      LessTotal(a, b);
      LessTotal(b, c);
      LessTotal(a, c);
      if Less(b, a) && Less(c, b) {
        LessTransitive(c, b, a);
      }
    }
  }
}
