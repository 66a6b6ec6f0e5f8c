/** Primary keys. Every table declares `id = db.Column(db.Integer,
    primary_key=True)`, which SQLite makes an alias of the rowid without
    AUTOINCREMENT: an inserted row gets one more than the largest id present,
    or 1 in an empty table, so the id of a deleted newest row is handed out
    again. */
module Ids {

  /** `m` is the largest element of `ks`. */
  predicate IsMax(m: nat, ks: set<nat>) {
    m in ks && forall k :: k in ks ==> k <= m
  }

  /** A finite non-empty set of naturals has a largest element. */
  lemma {:induction false} MaxExists(ks: set<nat>)
    requires ks != {}
    ensures exists m :: IsMax(m, ks)
    decreases ks
  {
    var x :| x in ks;
    if ks == {x} {
      assert IsMax(x, ks);
    } else {
      var rest := ks - {x};
      MaxExists(rest);
      var m :| IsMax(m, rest);
      var top := if x > m then x else m;
      forall k | k in ks ensures k <= top {
        if k != x {
          assert k in rest;
        }
      }
      assert IsMax(top, ks);
    }
  }

  /** The largest key. */
  function Max(ks: set<nat>): (m: nat)
    requires ks != {}
    ensures m in ks
    ensures forall k :: k in ks ==> k <= m
  {
    MaxExists(ks);
    var m :| IsMax(m, ks);
    m
  }

  /** The id SQLite assigns to the next row of a table whose ids are `ks`. */
  function NextId(ks: set<nat>): (id: nat)
    ensures id >= 1 && id !in ks
    ensures forall k :: k in ks ==> k < id
    ensures ks != {} ==> id - 1 in ks
    ensures ks == {} ==> id == 1
  {
    if ks == {} then 1 else Max(ks) + 1
  }
}
