/** The credential list refines an insertion-ordered map from (relying party, user). */
module StoreMap {
  import opened Basics
  import opened Storage

  /** Reference model: keys in the order they first arrived, each with one credential. */
  datatype OrderedMap = OrderedMap(order: seq<Key>, entries: map<Key, Credential>)

  function Put(m: OrderedMap, c: Credential): OrderedMap {
    OrderedMap(if KeyOf(c) in m.entries then m.order else m.order + [KeyOf(c)], m.entries[KeyOf(c) := c])
  }

  function Remove(m: OrderedMap, id: bytes): OrderedMap {
    OrderedMap(
      Survivors(m.order, m.entries, id),
      map k | k in m.entries && m.entries[k].credentialId != id :: m.entries[k])
  }

  function Survivors(order: seq<Key>, entries: map<Key, Credential>, id: bytes): seq<Key> {
    if order == [] then []
    else
      var k := order[|order| - 1];
      Survivors(order[..|order| - 1], entries, id)
      + (if k in entries && entries[k].credentialId == id then [] else [k])
  }

  /** The credentials of one relying party, in arrival order. */
  function Select(order: seq<Key>, entries: map<Key, Credential>, rpId: bytes): seq<Credential> {
    if order == [] then []
    else
      var k := order[|order| - 1];
      Select(order[..|order| - 1], entries, rpId) + (if k.0 == rpId && k in entries then [entries[k]] else [])
  }

  function Keys(creds: seq<Credential>): seq<Key> {
    seq(|creds|, i requires 0 <= i < |creds| => KeyOf(creds[i]))
  }

  function Abs(creds: seq<Credential>): OrderedMap {
    OrderedMap(
      Keys(creds),
      map k | k in Keys(creds) && First(creds, k) < |creds| :: creds[First(creds, k)])
  }

  predicate Distinct(creds: seq<Credential>) {
    forall i, j :: 0 <= i < j < |creds| ==> KeyOf(creds[i]) != KeyOf(creds[j])
  }

  lemma AbsAt(creds: seq<Credential>, i: nat)
    requires Distinct(creds) && i < |creds|
    ensures First(creds, KeyOf(creds[i])) == i
    ensures KeyOf(creds[i]) in Abs(creds).entries && Abs(creds).entries[KeyOf(creds[i])] == creds[i]
  {
    assert Keys(creds)[i] == KeyOf(creds[i]);
  }

  lemma AbsKeys(creds: seq<Credential>, k: Key)
    requires k in Abs(creds).entries
    ensures exists i :: 0 <= i < |creds| && KeyOf(creds[i]) == k
  {
    assert KeyOf(creds[First(creds, k)]) == k;
  }

  lemma EqualMaps(a: OrderedMap, creds: seq<Credential>)
    requires Distinct(creds) && a.order == Keys(creds)
    requires forall i :: 0 <= i < |creds| ==> KeyOf(creds[i]) in a.entries && a.entries[KeyOf(creds[i])] == creds[i]
    requires forall k :: k in a.entries ==> exists i :: 0 <= i < |creds| && KeyOf(creds[i]) == k
    ensures a == Abs(creds)
  {
    forall i | 0 <= i < |creds|
      ensures KeyOf(creds[i]) in Abs(creds).entries && Abs(creds).entries[KeyOf(creds[i])] == creds[i]
    {
      AbsAt(creds, i);
    }
    forall k | k in Abs(creds).entries
      ensures k in a.entries
    {
      AbsKeys(creds, k);
    }
    assert a.entries.Keys == Abs(creds).entries.Keys;
    assert forall k :: k in a.entries ==> a.entries[k] == Abs(creds).entries[k];
  }

  lemma SavedDistinct(creds: seq<Credential>, c: Credential)
    requires Distinct(creds)
    ensures Distinct(Saved(creds, c))
  {}

  lemma KeyPresent(creds: seq<Credential>, k: Key)
    ensures First(creds, k) < |creds| <==> k in Abs(creds).entries
  {
    if First(creds, k) < |creds| {
      assert Keys(creds)[First(creds, k)] == k;
    }
  }

  lemma PutHolds(creds: seq<Credential>, c: Credential, j: nat)
    requires Distinct(creds) && j < |Saved(creds, c)|
    ensures var d := Saved(creds, c)[j];
            var m := Put(Abs(creds), c);
            KeyOf(d) in m.entries && m.entries[KeyOf(d)] == d
  {
    if j < |creds| && j != First(creds, KeyOf(c)) {
      AbsAt(creds, j);
    }
  }

  lemma PutHasNoMore(creds: seq<Credential>, c: Credential, k: Key)
    requires k in Put(Abs(creds), c).entries
    ensures exists j :: 0 <= j < |Saved(creds, c)| && KeyOf(Saved(creds, c)[j]) == k
  {
    if k == KeyOf(c) {
      assert KeyOf(Saved(creds, c)[First(creds, k)]) == k;
    } else {
      AbsKeys(creds, k);
      var j :| 0 <= j < |creds| && KeyOf(creds[j]) == k;
      assert KeyOf(Saved(creds, c)[j]) == k;
    }
  }

  /** Saving keeps keys distinct and is exactly a map update that keeps the key's place. */
  lemma SaveRefines(creds: seq<Credential>, c: Credential)
    requires Distinct(creds)
    ensures Distinct(Saved(creds, c)) && Abs(Saved(creds, c)) == Put(Abs(creds), c)
  {
    SavedDistinct(creds, c);
    KeyPresent(creds, KeyOf(c));
    assert Put(Abs(creds), c).order == Keys(Saved(creds, c));
    forall j | 0 <= j < |Saved(creds, c)| {
      PutHolds(creds, c, j);
    }
    forall k | k in Put(Abs(creds), c).entries {
      PutHasNoMore(creds, c, k);
    }
    EqualMaps(Put(Abs(creds), c), Saved(creds, c));
  }

  lemma {:induction false} WithoutKeys(creds: seq<Credential>, entries: map<Key, Credential>, id: bytes)
    requires forall i :: 0 <= i < |creds| ==> KeyOf(creds[i]) in entries && entries[KeyOf(creds[i])] == creds[i]
    ensures Keys(Without(creds, id)) == Survivors(Keys(creds), entries, id)
  {
    if creds != [] {
      var front, last := creds[..|creds| - 1], creds[|creds| - 1];
      assert Keys(creds)[..|Keys(creds)| - 1] == Keys(front);
      WithoutKeys(front, entries, id);
    }
  }

  lemma {:induction false} WithoutDistinct(creds: seq<Credential>, id: bytes)
    requires Distinct(creds)
    ensures Distinct(Without(creds, id))
  {
    if creds != [] {
      var front, last := creds[..|creds| - 1], creds[|creds| - 1];
      WithoutDistinct(front, id);
      WithoutMembers(front, id);
      var w := Without(front, id);
      forall i | 0 <= i < |w|
        ensures KeyOf(w[i]) != KeyOf(last)
      {
        assert w[i] in front;
      }
    }
  }

  lemma AbsHolds(creds: seq<Credential>)
    requires Distinct(creds)
    ensures forall i :: 0 <= i < |creds| ==>
              KeyOf(creds[i]) in Abs(creds).entries && Abs(creds).entries[KeyOf(creds[i])] == creds[i]
  {
    forall i | 0 <= i < |creds|
      ensures KeyOf(creds[i]) in Abs(creds).entries && Abs(creds).entries[KeyOf(creds[i])] == creds[i]
    {
      AbsAt(creds, i);
    }
  }

  /** Deleting keeps keys distinct and is exactly the removal of every key holding that ID. */
  lemma DeleteRefines(creds: seq<Credential>, id: bytes)
    requires Distinct(creds)
    ensures Distinct(Without(creds, id)) && Abs(Without(creds, id)) == Remove(Abs(creds), id)
  {
    var m := Remove(Abs(creds), id);
    AbsHolds(creds);
    WithoutKeys(creds, Abs(creds).entries, id);
    WithoutDistinct(creds, id);
    RemoveHolds(creds, id);
    forall k | k in m.entries
      ensures exists i :: 0 <= i < |Without(creds, id)| && KeyOf(Without(creds, id)[i]) == k
    {
      WithoutMembers(creds, id);
      AbsKeys(creds, k);
      var j :| 0 <= j < |creds| && KeyOf(creds[j]) == k;
      assert creds[j] in Without(creds, id);
    }
    EqualMaps(m, Without(creds, id));
  }

  lemma RemoveHolds(creds: seq<Credential>, id: bytes)
    requires Distinct(creds)
    ensures var w, m := Without(creds, id), Remove(Abs(creds), id);
            forall i :: 0 <= i < |w| ==> KeyOf(w[i]) in m.entries && m.entries[KeyOf(w[i])] == w[i]
  {
    var w, m := Without(creds, id), Remove(Abs(creds), id);
    AbsHolds(creds);
    WithoutMembers(creds, id);
    forall i | 0 <= i < |w|
      ensures KeyOf(w[i]) in m.entries && m.entries[KeyOf(w[i])] == w[i]
    {
      assert w[i] in creds && w[i].credentialId != id;
    }
  }

  lemma {:induction false} SelectIsByRP(creds: seq<Credential>, entries: map<Key, Credential>, rpId: bytes)
    requires forall i :: 0 <= i < |creds| ==> KeyOf(creds[i]) in entries && entries[KeyOf(creds[i])] == creds[i]
    ensures ByRP(creds, rpId) == Select(Keys(creds), entries, rpId)
  {
    if creds != [] {
      assert Keys(creds)[..|Keys(creds)| - 1] == Keys(creds[..|creds| - 1]);
      SelectIsByRP(creds[..|creds| - 1], entries, rpId);
    }
  }

  /** Discovery by relying party is the map's own selection, in arrival order. */
  lemma DiscoveryRefines(creds: seq<Credential>, rpId: bytes)
    requires Distinct(creds)
    ensures ByRP(creds, rpId) == Select(Abs(creds).order, Abs(creds).entries, rpId)
  {
    forall i | 0 <= i < |creds|
      ensures KeyOf(creds[i]) in Abs(creds).entries && Abs(creds).entries[KeyOf(creds[i])] == creds[i]
    {
      AbsAt(creds, i);
    }
    SelectIsByRP(creds, Abs(creds).entries, rpId);
  }

  // ---------------------------------------------------------------- whole runs

  datatype Edit = SaveOf(c: Credential) | DeleteOf(id: bytes)

  function Edited(creds: seq<Credential>, e: Edit): seq<Credential> {
    match e
    case SaveOf(c) => Saved(creds, c)
    case DeleteOf(id) => Without(creds, id)
  }

  function EditedAll(creds: seq<Credential>, es: seq<Edit>): seq<Credential> {
    if es == [] then creds else Edited(EditedAll(creds, es[..|es| - 1]), es[|es| - 1])
  }

  function MapAll(m: OrderedMap, es: seq<Edit>): OrderedMap {
    if es == [] then m
    else
      var n := MapAll(m, es[..|es| - 1]);
      match es[|es| - 1]
      case SaveOf(c) => Put(n, c)
      case DeleteOf(id) => Remove(n, id)
  }

  /** From distinct keys, any run of saves and deletes is the same run on the ordered map. */
  lemma {:induction false} RunRefines(creds: seq<Credential>, es: seq<Edit>)
    requires Distinct(creds)
    ensures Distinct(EditedAll(creds, es)) && Abs(EditedAll(creds, es)) == MapAll(Abs(creds), es)
  {
    if es != [] {
      RunRefines(creds, es[..|es| - 1]);
      var before := EditedAll(creds, es[..|es| - 1]);
      match es[|es| - 1]
      case SaveOf(c) => SaveRefines(before, c);
      case DeleteOf(id) => DeleteRefines(before, id);
    }
  }

  // ---------------------------------------------------------------- without distinct keys

  function Count(creds: seq<Credential>, k: Key): nat {
    if creds == [] then 0
    else Count(creds[..|creds| - 1], k) + (if KeyOf(creds[|creds| - 1]) == k then 1 else 0)
  }

  lemma {:induction false} CountZero(creds: seq<Credential>, k: Key)
    ensures Count(creds, k) == 0 <==> First(creds, k) == |creds|
  {
    if creds != [] {
      var front, last := creds[..|creds| - 1], creds[|creds| - 1];
      CountZero(front, k);
      if First(creds, k) < |creds| && First(front, k) == |front| {
        assert First(creds, k) == |front|;
      }
    }
  }

  lemma {:induction false} CountUpdate(creds: seq<Credential>, i: nat, c: Credential, k: Key)
    requires i < |creds| && KeyOf(creds[i]) == KeyOf(c)
    ensures Count(creds[i := c], k) == Count(creds, k)
  {
    var n := |creds| - 1;
    if i == n {
      assert creds[i := c][..n] == creds[..n];
    } else {
      assert creds[i := c][..n] == creds[..n][i := c];
      CountUpdate(creds[..n], i, c, k);
    }
  }

  /** On any list at all: saving replaces only the first entry of its key, so entries that share
      the key stay, and the saved credential is alone under its key exactly when at most one
      entry had that key before. */
  lemma SaveCounts(creds: seq<Credential>, c: Credential)
    ensures forall k :: Count(Saved(creds, c), k)
              == Count(creds, k) + (if k == KeyOf(c) && Count(creds, k) == 0 then 1 else 0)
    ensures Count(Saved(creds, c), KeyOf(c)) == 1 <==> Count(creds, KeyOf(c)) <= 1
  {
    var i := First(creds, KeyOf(c));
    CountZero(creds, KeyOf(c));
    forall k
      ensures Count(Saved(creds, c), k) == Count(creds, k) + (if k == KeyOf(c) && Count(creds, k) == 0 then 1 else 0)
    {
      if i < |creds| {
        CountUpdate(creds, i, c, k);
      } else {
        assert (creds + [c])[..|creds|] == creds;
      }
    }
  }
}
