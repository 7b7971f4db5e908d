/**
 * The two in-place operations the window performs on its ObservableCollection lists:
 * `Add` appends at the end and `Remove` drops the first element equal to its argument.
 */
module Collections {

  /** No element occurs twice. */
  ghost predicate NoDup<T>(xs: seq<T>)
  {
    forall i, j :: 0 <= i < j < |xs| ==> xs[i] != xs[j]
  }

  /** `Collection.Remove(x)`: removes the first occurrence of `x`; a list without `x` is left as it is. */
  function Remove<T(==)>(xs: seq<T>, x: T): (r: seq<T>)
    ensures x in xs ==> |r| == |xs| - 1
    ensures x !in xs ==> r == xs
    ensures forall y :: y in r ==> y in xs
  {
    if xs == [] then []
    else if xs[0] == x then xs[1..]
    else [xs[0]] + Remove(xs[1..], x)
  }

  /** Position of the first occurrence of `x`. */
  function FirstIndex<T(==)>(xs: seq<T>, x: T): (i: nat)
    requires x in xs
    ensures i < |xs| && xs[i] == x && x !in xs[..i]
  {
    if xs[0] == x then 0
    else
      assert x in xs[1..] by {
        var k :| 0 <= k < |xs| && xs[k] == x;
        assert xs[1..][k - 1] == x;
      }
      var j := FirstIndex(xs[1..], x);
      assert xs[..j + 1] == [xs[0]] + xs[1..][..j];
      j + 1
  }

  /** `Remove` cuts out exactly the first occurrence: everything before it and everything after it is kept. */
  lemma {:induction false} RemoveFirst<T>(xs: seq<T>, x: T)
    requires x in xs
    ensures var i := FirstIndex(xs, x); Remove(xs, x) == xs[..i] + xs[i + 1..]
  {
    if xs[0] == x {
      assert xs[..0] + xs[1..] == Remove(xs, x);
    } else {
      var tail := xs[1..];
      var j := FirstIndex(tail, x);
      RemoveFirst(tail, x);
      assert xs[..j + 1] == [xs[0]] + tail[..j];
      assert xs[j + 2..] == tail[j + 1..];
    }
  }

  /** In a list without duplicates, removing `x` leaves exactly the other elements, still without duplicates. */
  lemma {:induction false} RemoveMembers<T>(xs: seq<T>, x: T)
    requires NoDup(xs)
    ensures NoDup(Remove(xs, x))
    ensures forall y :: y in Remove(xs, x) <==> y in xs && y != x
  {
    if xs == [] {
    } else if xs[0] == x {
      assert forall y :: y in xs[1..] ==> y != x by {
        forall y | y in xs[1..] ensures y != x {
          var k :| 0 <= k < |xs[1..]| && xs[1..][k] == y;
          assert xs[k + 1] == y;
        }
      }
      assert forall y :: y in xs <==> y == xs[0] || y in xs[1..] by {
        assert xs == [xs[0]] + xs[1..];
      }
    } else {
      var rest := xs[1..];
      assert NoDup(rest) by {
        forall i, j | 0 <= i < j < |rest| ensures rest[i] != rest[j] {
          assert rest[i] == xs[i + 1] && rest[j] == xs[j + 1];
        }
      }
      RemoveMembers(rest, x);
      var r := Remove(rest, x);
      assert xs[0] !in rest by {
        forall k | 0 <= k < |rest| ensures rest[k] != xs[0] {
          assert rest[k] == xs[k + 1];
        }
      }
      assert xs == [xs[0]] + rest;
      var full := [xs[0]] + r;
      forall i, j | 0 <= i < j < |full| ensures full[i] != full[j] {
        if i == 0 {
          assert full[j] == r[j - 1];
          assert r[j - 1] in r;
        } else {
          assert full[i] == r[i - 1] && full[j] == r[j - 1];
        }
      }
    }
  }

  /** Appending an element that is not yet present keeps a list free of duplicates. */
  lemma AppendFresh<T>(xs: seq<T>, x: T)
    requires NoDup(xs) && x !in xs
    ensures NoDup(xs + [x])
  {
    var ys := xs + [x];
    forall i, j | 0 <= i < j < |ys| ensures ys[i] != ys[j] {
      if j == |xs| {
        assert ys[i] == xs[i];
      } else {
        assert ys[i] == xs[i] && ys[j] == xs[j];
      }
    }
  }
}
