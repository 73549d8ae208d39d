/** `ORDER BY a.date, e.name` on joined appointment rows. */
module Ordering {
  import opened Mapper

  /** Text order of SQLite's default (binary) collation: character by character,
      a proper prefix first. */
  predicate TextLe(a: string, b: string)
  {
    if a == [] then true
    else if b == [] then false
    else if a[0] != b[0] then a[0] < b[0]
    else TextLe(a[1..], b[1..])
  }

  lemma {:induction false} TextLeTotal(a: string, b: string)
    ensures TextLe(a, b) || TextLe(b, a)
  {
    if a != [] && b != [] && a[0] == b[0] {
      TextLeTotal(a[1..], b[1..]);
    }
  }

  lemma {:induction false} TextLeTransitive(a: string, b: string, c: string)
    requires TextLe(a, b) && TextLe(b, c)
    ensures TextLe(a, c)
  {
    if a != [] && b != [] && c != [] && a[0] == b[0] == c[0] {
      TextLeTransitive(a[1..], b[1..], c[1..]);
    }
  }

  /** `x` may precede `y`: an earlier date, or the same date and a staff name not after. */
  predicate RowLe(x: JoinedRow, y: JoinedRow)
  {
    || x.appointment.date < y.appointment.date
    || (x.appointment.date == y.appointment.date && TextLe(x.employee.name, y.employee.name))
  }

  lemma RowLeTotal(x: JoinedRow, y: JoinedRow)
    ensures RowLe(x, y) || RowLe(y, x)
  {
    TextLeTotal(x.employee.name, y.employee.name);
  }

  lemma RowLeTransitive(x: JoinedRow, y: JoinedRow, z: JoinedRow)
    requires RowLe(x, y) && RowLe(y, z)
    ensures RowLe(x, z)
  {
    if x.appointment.date == y.appointment.date == z.appointment.date {
      TextLeTransitive(x.employee.name, y.employee.name, z.employee.name);
    }
  }

  /** Ascending by date, then by staff name. */
  predicate SortedByDateName(s: seq<JoinedRow>)
  {
    forall i, j :: 0 <= i < j < |s| ==> RowLe(s[i], s[j])
  }

  function InsertRow(x: JoinedRow, s: seq<JoinedRow>): seq<JoinedRow>
  {
    if s == [] then [x]
    else if RowLe(x, s[0]) then [x] + s
    else [s[0]] + InsertRow(x, s[1..])
  }

  /** The result order the engine produces for `ORDER BY a.date, e.name`. */
  function OrderByDateName(s: seq<JoinedRow>): seq<JoinedRow>
  {
    if s == [] then [] else InsertRow(s[0], OrderByDateName(s[1..]))
  }

  lemma SortedTail(s: seq<JoinedRow>)
    requires |s| > 0 && SortedByDateName(s)
    ensures SortedByDateName(s[1..])
  {
    forall i, j | 0 <= i < j < |s| - 1 ensures RowLe(s[1..][i], s[1..][j]) {
      assert s[1..][i] == s[i + 1] && s[1..][j] == s[j + 1];
    }
  }

  lemma PrependSorted(x: JoinedRow, s: seq<JoinedRow>)
    requires SortedByDateName(s)
    requires forall k :: 0 <= k < |s| ==> RowLe(x, s[k])
    ensures SortedByDateName([x] + s)
  {
    var r := [x] + s;
    forall i, j | 0 <= i < j < |r| ensures RowLe(r[i], r[j]) {
      assert r[j] == s[j - 1];
      if i > 0 {
        assert r[i] == s[i - 1];
      }
    }
  }

  lemma {:induction false} InsertRowSorted(x: JoinedRow, s: seq<JoinedRow>)
    requires SortedByDateName(s)
    ensures SortedByDateName(InsertRow(x, s))
    ensures multiset(InsertRow(x, s)) == multiset(s) + multiset{x}
  {
    if s == [] {
    } else if RowLe(x, s[0]) {
      forall k | 0 <= k < |s| ensures RowLe(x, s[k]) {
        if k > 0 {
          RowLeTransitive(x, s[0], s[k]);
        }
      }
      PrependSorted(x, s);
    } else {
      RowLeTotal(x, s[0]);
      var tail := s[1..];
      var rest := InsertRow(x, tail);
      SortedTail(s);
      InsertRowSorted(x, tail);
      forall k | 0 <= k < |rest| ensures RowLe(s[0], rest[k]) {
        assert rest[k] in multiset(rest);
        if rest[k] != x {
          assert rest[k] in multiset(tail);
          var j :| 0 <= j < |tail| && tail[j] == rest[k];
          assert s[j + 1] == rest[k];
        }
      }
      PrependSorted(s[0], rest);
      assert s == [s[0]] + tail;
    }
  }

  /** The ordering is sorted by date, then staff name, and a permutation of its input. */
  lemma {:induction false} OrderByDateNameCorrect(s: seq<JoinedRow>)
    ensures SortedByDateName(OrderByDateName(s))
    ensures multiset(OrderByDateName(s)) == multiset(s)
  {
    if s != [] {
      OrderByDateNameCorrect(s[1..]);
      InsertRowSorted(s[0], OrderByDateName(s[1..]));
      assert s == [s[0]] + s[1..];
    }
  }
}
