/** The in-memory property table: a dictionary from property id to the
    property object, loaded from a fixture and grown by `addProperty`. */
module PropertyStore {
  import opened JsValues

  /** A property object as the web layer hands it over: its details, and an
      `id` field that adding the property overwrites. In JavaScript `id` is
      one of the object's keys; here it is kept apart from the others, so
      `details` never holds an "id" key. */
  class Property {
    var id: JsValue
    var details: map<string, JsValue>

    constructor (details: map<string, JsValue>)
      requires "id" !in details
      ensures this.details == details && id == Undefined
    {
      this.details := details;
      id := Undefined;
    }
  }

  /** The keys of `m` are exactly 1, 2, ..., |m|. */
  ghost predicate DenseKeys<V>(m: map<int, V>) {
    forall k :: k in m <==> 1 <= k <= |m|
  }

  /** The id a new property gets: one more than the number of keys. */
  function NextId<V>(m: map<int, V>): (id: int)
    ensures id > 0
    ensures DenseKeys(m) ==> id !in m && forall k :: k in m ==> k < id
  {
    |m| + 1
  }

  /** Inserting under the next id keeps the keys dense and grows the table by
      exactly one entry. */
  lemma DenseInsert<V>(m: map<int, V>, v: V)
    requires DenseKeys(m)
    ensures |m[NextId(m) := v]| == |m| + 1
    ensures DenseKeys(m[NextId(m) := v])
  {
  }

  /** Whenever the next id is already a key, adding under it replaces that
      entry: the keys stay the same and the table does not grow. */
  lemma TakenIdCollides<V>(m: map<int, V>, v: V)
    requires NextId(m) in m
    ensures m[NextId(m) := v].Keys == m.Keys
    ensures |m[NextId(m) := v]| == |m|
  {
    assert m[NextId(m) := v].Keys == m.Keys;
  }

  /** Without dense keys the next id can already be taken: adding then
      replaces an entry instead of growing the table. */
  lemma SparseKeysCollide<V>(v: V, w: V)
    ensures var m := map[2 := v]; NextId(m) in m && |m[NextId(m) := w]| == |m|
  {
    var m := map[2 := v];
    assert NextId(m) == 2;
    TakenIdCollides(m, w);
  }

  class PropertyTable {
    var properties: map<int, Property>

    constructor (initial: map<int, Property>)
      ensures properties == initial
    {
      properties := initial;
    }

    /** Gives `property` the next id, stores it under that id and returns
        the same object. Every other entry keeps its object, and only the
        new property's `id` field changes. */
    method AddProperty(property: Property) returns (r: Property)
      modifies this, property`id
      ensures r == property
      ensures property.id == JsNumber(NextId(old(properties)))
      ensures properties == old(properties)[NextId(old(properties)) := property]
      ensures forall k :: k in old(properties) && k != NextId(old(properties)) ==>
        k in properties && properties[k] == old(properties[k])
      ensures DenseKeys(old(properties)) ==>
        NextId(old(properties)) !in old(properties) && |properties| == |old(properties)| + 1 && DenseKeys(properties)
    {
      var propertyId := |properties| + 1;
      property.id := JsNumber(propertyId);
      properties := properties[propertyId := property];
      if DenseKeys(old(properties)) {
        DenseInsert(old(properties), property);
      }
      r := property;
    }
  }
}
