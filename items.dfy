/** The record generator: the `ItemModel` record, its constructor
    `create_item` and the loop `create_entities` that builds `count` records
    named id1, id2, ... in order. */
module Items {
  import opened Decimal

  /** A point in time. Only its identity matters to the generator: the value
      comes from the wall clock moved one day back, which is an input here. */
  type Instant = int

  /** The datastore key of a record: kind, name and namespace. */
  datatype Key = Key(kind: string, name: string, namespace: string)

  /** One generated record. `id` is the key the store files it under. */
  datatype ItemModel = ItemModel(
    id: Key,
    createdAt: Instant,
    email: string,
    uuidValue: string,
    booleanValue: bool)

  const EmailSuffix: string := "@email.com"

  /** The key name of the record with 1-based number `i`: "id" and `i` in decimal. */
  function KeyName(i: nat): string {
    "id" + Render(i)
  }

  function EmailFor(id: string): string {
    id + EmailSuffix
  }

  /** A record with the given name, email, kind and namespace, the supplied
      timestamp and token, and the boolean field set. */
  function CreateItem(id: string, email: string, kind: string, namespace: string,
                      createdAt: Instant, token: string): ItemModel
  {
    ItemModel(Key(kind, id, namespace), createdAt, email, token, true)
  }

  /** The record the generator builds on its `i`-th step (1-based).
      `yesterday(i)` is the clock reading moved back one day and `uuids(i)`
      the random token drawn during that step. */
  function ItemAt(i: nat, kind: string, namespace: string,
                  yesterday: nat -> Instant, uuids: nat -> string): ItemModel
  {
    var id := KeyName(i);
    CreateItem(id, EmailFor(id), kind, namespace, yesterday(i), uuids(i))
  }

  /** The whole generated list: records 1 .. count, in that order. */
  function Entities(count: nat, kind: string, namespace: string,
                    yesterday: nat -> Instant, uuids: nat -> string): seq<ItemModel>
  {
    seq(count, (j: nat) => ItemAt(j + 1, kind, namespace, yesterday, uuids))
  }

  /** Different record numbers give different key names. */
  lemma KeyNameInjective(a: nat, b: nat)
    ensures KeyName(a) == KeyName(b) <==> a == b
  {
    if KeyName(a) == KeyName(b) {
      assert KeyName(a)[2..] == Render(a);
      assert KeyName(b)[2..] == Render(b);
      RenderInjective(a, b);
    }
  }

  /** The key names of a generated list are pairwise distinct. */
  lemma EntityNamesDistinct(count: nat, kind: string, namespace: string,
                            yesterday: nat -> Instant, uuids: nat -> string)
    ensures var es := Entities(count, kind, namespace, yesterday, uuids);
            forall j, k :: 0 <= j < k < |es| ==> es[j].id.name != es[k].id.name
  {
    var es := Entities(count, kind, namespace, yesterday, uuids);
    forall j, k | 0 <= j < k < |es| ensures es[j].id.name != es[k].id.name {
      KeyNameInjective(j + 1, k + 1);
    }
  }

  /** Builds the records one by one, appending each to the list. */
  method CreateEntities(count: nat, kind: string, namespace: string,
                        yesterday: nat -> Instant, uuids: nat -> string)
    returns (list: seq<ItemModel>)
    ensures list == Entities(count, kind, namespace, yesterday, uuids)
    ensures |list| == count
    ensures forall j :: 0 <= j < |list| ==>
              && list[j].id == Key(kind, KeyName(j + 1), namespace)
              && list[j].email == list[j].id.name + EmailSuffix
              && list[j].booleanValue
              && list[j].createdAt == yesterday(j + 1)
              && list[j].uuidValue == uuids(j + 1)
    ensures forall j, k :: 0 <= j < k < |list| ==> list[j].id.name != list[k].id.name
  {
    list := [];
    var i := 1;
    while i <= count
      invariant 1 <= i <= count + 1
      invariant list == Entities(i - 1, kind, namespace, yesterday, uuids)
    {
      var id := KeyName(i);
      var email := EmailFor(id);
      list := list + [CreateItem(id, email, kind, namespace, yesterday(i), uuids(i))];
      i := i + 1;
    }
    EntityNamesDistinct(count, kind, namespace, yesterday, uuids);
  }
}
