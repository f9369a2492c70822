/** The order of the user list: display name bytewise, then ID. */
module Names {
  import opened Models

  /** strings.Compare(a, b) < 0 */
  predicate TextLess(a: Text, b: Text) {
    b != [] && (a == [] || a[0] < b[0] || (a[0] == b[0] && TextLess(a[1..], b[1..])))
  }

  /** A text precedes another one at the first place where they differ, the end of a text
      counting as less than any byte. */
  lemma {:induction false} TextLessIff(a: Text, b: Text)
    ensures TextLess(a, b) <==>
              exists n: nat :: n <= |a| && n < |b| && a[..n] == b[..n] && (n == |a| || a[n] < b[n])
  {
    if a == [] || b == [] {
      assert b != [] ==> a[..0] == b[..0];
    } else if a[0] != b[0] {
      assert a[..0] == b[..0];
      assert forall n: nat :: 0 < n <= |a| && n < |b| ==> a[..n][0] == a[0] && b[..n][0] == b[0];
    } else {
      var x, y := a[1..], b[1..];
      TextLessIff(x, y);
      if n: nat :| n <= |x| && n < |y| && x[..n] == y[..n] && (n == |x| || x[n] < y[n]) {
        assert a[..n + 1] == [a[0]] + x[..n] && b[..n + 1] == [b[0]] + y[..n];
      }
      if n: nat :| n <= |a| && n < |b| && a[..n] == b[..n] && (n == |a| || a[n] < b[n]) {
        assert x[..n - 1] == a[..n][1..] && y[..n - 1] == b[..n][1..];
      }
    }
  }

  datatype SortEntry = SortEntry(ID: Snowflake, Key: Text)

  predicate EntryLess(a: SortEntry, b: SortEntry) {
    TextLess(a.Key, b.Key) || (a.Key == b.Key && a.ID < b.ID)
  }

  lemma {:induction false} TextLessTransitive(a: Text, b: Text, c: Text)
    requires TextLess(a, b) && TextLess(b, c)
    ensures TextLess(a, c)
  {
    if a == [] || a[0] != b[0] || b[0] != c[0] {
    } else {
      TextLessTransitive(a[1..], b[1..], c[1..]);
    }
  }

  lemma {:induction false} TextLessTotal(a: Text, b: Text)
    ensures TextLess(a, b) || a == b || TextLess(b, a)
    ensures !(TextLess(a, b) && (a == b || TextLess(b, a)))
  {
    if a == [] || b == [] {
    } else {
      TextLessTotal(a[1..], b[1..]);
      assert a == [a[0]] + a[1..] && b == [b[0]] + b[1..];
    }
    if a == b && a != [] {
      TextLessTotal(a[1..], b[1..]);
    }
  }

  /** A strict total order on entries. */
  lemma EntryOrder(a: SortEntry, b: SortEntry, c: SortEntry)
    ensures EntryLess(a, b) || a == b || EntryLess(b, a)
    ensures !(EntryLess(a, b) && (a == b || EntryLess(b, a)))
    ensures EntryLess(a, b) && EntryLess(b, c) ==> EntryLess(a, c)
  {
    TextLessTotal(a.Key, b.Key);
    TextLessTotal(b.Key, c.Key);
    if TextLess(a.Key, b.Key) && TextLess(b.Key, c.Key) {
      TextLessTransitive(a.Key, b.Key, c.Key);
    }
  }
}
