/** Conversation ids, their code-point order, and the sorted listing of a finite set of ids. */
module IdOrder {

  type Id = string

  /** The strict order that sorting strings uses: by code point, a proper prefix first. */
  predicate Below(a: Id, b: Id) {
    if b == [] then false
    else if a == [] then true
    else a[0] < b[0] || (a[0] == b[0] && Below(a[1..], b[1..]))
  }

  ghost predicate Ascending(ids: seq<Id>) {
    forall i, j :: 0 <= i < j < |ids| ==> Below(ids[i], ids[j])
  }

  ghost predicate Lists(ids: seq<Id>, contents: set<Id>) {
    forall id :: id in ids <==> id in contents
  }

  lemma {:induction false} BelowIsTotal(a: Id, b: Id)
    ensures a == b || Below(a, b) || Below(b, a)
  {
    if a != [] && b != [] && a[0] == b[0] {
      BelowIsTotal(a[1..], b[1..]);
      assert a == [a[0]] + a[1..] && b == [b[0]] + b[1..];
    }
  }

  lemma {:induction false} BelowIsTransitive(a: Id, b: Id, c: Id)
    requires Below(a, b) && Below(b, c)
    ensures Below(a, c)
  {
    if a != [] && a[0] == b[0] == c[0] {
      BelowIsTransitive(a[1..], b[1..], c[1..]);
    }
  }

  lemma {:induction false} BelowIsAsymmetric(a: Id, b: Id)
    requires Below(a, b)
    ensures !Below(b, a) && a != b
  {
    if a != [] && a[0] == b[0] {
      BelowIsAsymmetric(a[1..], b[1..]);
    }
  }

  predicate IsLeast(least: Id, ids: set<Id>) {
    least in ids && forall id | id in ids :: id == least || Below(least, id)
  }

  lemma {:induction false} LeastExists(ids: set<Id>)
    requires ids != {}
    ensures exists least :: least in ids && IsLeast(least, ids)
  {
    var pick :| pick in ids;
    var rest := ids - {pick};
    assert ids == {pick} + rest;
    if rest == {} {
      assert IsLeast(pick, ids);
    } else {
      LeastExists(rest);
      var least :| least in rest && IsLeast(least, rest);
      BelowIsTotal(pick, least);
      if Below(pick, least) {
        forall id | id in rest && id != least ensures Below(pick, id) {
          BelowIsTransitive(pick, least, id);
        }
        assert IsLeast(pick, ids);
      } else {
        assert IsLeast(least, ids);
      }
    }
  }

  lemma LeastIsUnique(a: Id, b: Id, ids: set<Id>)
    requires IsLeast(a, ids) && IsLeast(b, ids)
    ensures a == b
  {
    if a != b {
      BelowIsAsymmetric(a, b);
    }
  }

  /** The ids of a set in ascending order. */
  function Sorted(ids: set<Id>): (listing: seq<Id>)
    ensures Ascending(listing) && Lists(listing, ids)
  {
    if ids == {} then []
    else
      LeastExists(ids);
      assert forall a, b :: IsLeast(a, ids) && IsLeast(b, ids) ==> a == b by {
        forall a, b | IsLeast(a, ids) && IsLeast(b, ids) ensures a == b {
          LeastIsUnique(a, b, ids);
        }
      }
      var least :| least in ids && IsLeast(least, ids);
      [least] + Sorted(ids - {least})
  }

  /** An ascending listing is determined by what it lists. */
  lemma {:induction false} AscendingIsUnique(a: seq<Id>, b: seq<Id>)
    requires Ascending(a) && Ascending(b)
    requires forall id :: id in a <==> id in b
    ensures a == b
  {
    assert a != [] ==> a[0] in b;
    assert b != [] ==> b[0] in a;
    if a != [] {
      if a[0] != b[0] {
        BelowIsAsymmetric(a[0], b[0]);
      }
      HeadIsFresh(a);
      HeadIsFresh(b);
      assert a == [a[0]] + a[1..] && b == [b[0]] + b[1..];
      forall id ensures id in a[1..] <==> id in b[1..] {
        assert id in a <==> id == a[0] || id in a[1..];
        assert id in b <==> id == b[0] || id in b[1..];
      }
      AscendingIsUnique(a[1..], b[1..]);
    }
  }

  lemma HeadIsFresh(ids: seq<Id>)
    requires ids != [] && Ascending(ids)
    ensures ids[0] !in ids[1..]
  {
    if ids[0] in ids[1..] {
      var j :| 1 <= j < |ids| && ids[j] == ids[0];
      BelowIsAsymmetric(ids[0], ids[j]);
    }
  }
}
