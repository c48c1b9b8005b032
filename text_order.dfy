/**
 * The order SQLite uses to compare two TEXT values under its default BINARY
 * collation: the strings are compared character by character, and when one is
 * a prefix of the other the shorter one comes first. Timestamps are stored as
 * the ISO-8601 text written by `toISOString`, and every time bound of a
 * capacity query is compared with them in this order.
 */
module TextOrder {

  /** `a` sorts at or before `b` (SQL `a <= b` on two TEXT values). */
  predicate TextLe(a: string, b: string)
    ensures a <= b ==> TextLe(a, b)
    ensures a != [] && b != [] && a[0] < b[0] ==> TextLe(a, b)
    ensures a != [] && b == [] ==> !TextLe(a, b)
  {
    a == [] || (b != [] && (a[0] < b[0] || (a[0] == b[0] && TextLe(a[1..], b[1..]))))
  }

  lemma {:induction false} TextLeReflexive(a: string)
    ensures TextLe(a, a)
  {
    if a != [] {
      TextLeReflexive(a[1..]);
    }
  }

  lemma {:induction false} TextLeAntisymmetric(a: string, b: string)
    requires TextLe(a, b) && TextLe(b, a)
    ensures a == b
  {
    if a != [] && b != [] {
      TextLeAntisymmetric(a[1..], b[1..]);
      assert a == [a[0]] + a[1..] && b == [b[0]] + b[1..];
    }
  }

  lemma {:induction false} TextLeTransitive(a: string, b: string, c: string)
    requires TextLe(a, b) && TextLe(b, c)
    ensures TextLe(a, c)
  {
    if a != [] && b != [] && c != [] && a[0] == b[0] == c[0] {
      TextLeTransitive(a[1..], b[1..], c[1..]);
    }
  }

  lemma {:induction false} TextLeTotal(a: string, b: string)
    ensures TextLe(a, b) || TextLe(b, a)
  {
    if a != [] && b != [] && a[0] == b[0] {
      TextLeTotal(a[1..], b[1..]);
    }
  }

  /**
   * The first differing character decides: when `a` and `b` agree before
   * position `k` and `a[k] < b[k]`, `a` sorts strictly before `b`, whatever
   * follows.
   */
  lemma {:induction false} TextLeFirstDifference(a: string, b: string, k: nat)
    requires k < |a| && k < |b| && a[..k] == b[..k] && a[k] < b[k]
    ensures TextLe(a, b) && !TextLe(b, a)
  {
    if k > 0 {
      assert a[0] == a[..k][0] == b[..k][0] == b[0];
      assert a[1..][..k - 1] == a[..k][1..] == b[..k][1..] == b[1..][..k - 1];
      TextLeFirstDifference(a[1..], b[1..], k - 1);
    }
  }
}
