/**
 The interpretation of one change event of the products table, as the
 consumer's loop body does it once a message has been unmarshalled into
 `root`: read `payload.op`; for a create (`c`), update (`u`) or snapshot
 read (`r`) read the row image `after` (its id, name and price, the price
 decoded with `decodeDecimal`); for a delete (`d`) read the id of the row
 image `before`; ignore any other operation. Every field is read with a Go
 type assertion, so a missing, null or wrong-typed field panics; here that
 is an `Err` naming the field.
 */
module ChangeEvents {
  import opened Wrappers
  import opened Json
  import Decimal

  /** The line the consumer prints for an event, as data. */
  datatype Event =
    | Created(id: int, name: string, price: real)
    | Updated(id: int, name: string, price: real)
    | Read(id: int, name: string, price: real)
    | Deleted(id: int)

  /** The operation code an event comes from. */
  function OpCode(e: Event): (op: string)
  {
    match e
    case Created(_, _, _) => "c"
    case Updated(_, _, _) => "u"
    case Read(_, _, _) => "r"
    case Deleted(_) => "d"
  }

  predicate IsUpsertOp(op: string) {
    op == "c" || op == "u" || op == "r"
  }

  /** The event printed for an upsert operation. */
  function Upsert(op: string, id: int, name: string, price: real): (e: Event)
    requires IsUpsertOp(op)
    ensures OpCode(e) == op
    ensures !e.Deleted? && e.id == id && e.name == name && e.price == price
  {
    if op == "c" then Created(id, name, price)
    else if op == "u" then Updated(id, name, price)
    else Read(id, name, price)
  }

  /** The loop body from the type assertion on `payload` to the printed
      line: Ok(Some(e)) when a line is printed, Ok(None) when the operation
      is ignored, Err when a type assertion panics. Only a message with an
      object payload and a string op gets past the first two assertions, and
      a panic always names one of the fields the loop body reads. */
  function Interpret(root: map<string, Json>): (r: Result<Option<Event>, Fault>)
    ensures r.Ok? ==> HasOp(root)
    ensures r.Err? ==> r.error.key in {"payload", "op", "after", "before", "id", "name", "price", "value", "scale"}
  {
    var payload :- ObjectAt(root, "payload");
    var op :- StringAt(payload, "op");
    if IsUpsertOp(op) then
      var after :- ObjectAt(payload, "after");
      var id :- NumberAt(after, "id");
      var name :- StringAt(after, "name");
      var priceMap :- ObjectAt(after, "price");
      var value :- StringAt(priceMap, "value");
      var scale :- NumberAt(priceMap, "scale");
      var price := Decimal.DecodeDecimal(value, Trunc(scale));
      Ok(Some(Upsert(op, Trunc(id), name, price)))
    else if op == "d" then
      var before :- ObjectAt(payload, "before");
      var id :- NumberAt(before, "id");
      Ok(Some(Deleted(Trunc(id))))
    else
      Ok(None)
  }

  // A direct statement of which messages the consumer accepts.

  predicate HasObject(m: map<string, Json>, key: string) {
    key in m && m[key].JObject?
  }

  predicate HasString(m: map<string, Json>, key: string) {
    key in m && m[key].JString?
  }

  predicate HasNumber(m: map<string, Json>, key: string) {
    key in m && m[key].JNumber?
  }

  /** A row image with the fields an upsert reads, each of the right type. */
  predicate GoodRow(after: map<string, Json>) {
    && HasNumber(after, "id")
    && HasString(after, "name")
    && HasObject(after, "price")
    && HasString(after["price"].fields, "value")
    && HasNumber(after["price"].fields, "scale")
  }

  /** A payload with a string operation code. */
  predicate HasOp(root: map<string, Json>) {
    HasObject(root, "payload") && HasString(root["payload"].fields, "op")
  }

  function PayloadOf(root: map<string, Json>): map<string, Json>
    requires HasObject(root, "payload")
  {
    root["payload"].fields
  }

  function OpOf(root: map<string, Json>): string
    requires HasOp(root)
  {
    PayloadOf(root)["op"].s
  }

  /** Without an object payload or a string op the consumer panics on it. */
  lemma InterpretNoOp(root: map<string, Json>)
    ensures !HasObject(root, "payload") ==> Interpret(root) == Err(Panic("payload"))
    ensures HasObject(root, "payload") && !HasString(PayloadOf(root), "op") ==> Interpret(root) == Err(Panic("op"))
  {
  }

  /** Create, update and snapshot read: a line is printed exactly when the
      row image `after` has all the fields; its kind follows the op (a
      snapshot read is not dropped), and its fields are the row's, the price
      decoded from `price.value` with the truncated `price.scale`. */
  lemma InterpretUpsert(root: map<string, Json>)
    requires HasOp(root) && IsUpsertOp(OpOf(root))
    ensures Interpret(root).Ok? <==> HasObject(PayloadOf(root), "after") && GoodRow(PayloadOf(root)["after"].fields)
    ensures Interpret(root).Ok? ==>
      var after := PayloadOf(root)["after"].fields;
      var price := after["price"].fields;
      && Interpret(root).value.Some?
      && var e := Interpret(root).value.value;
      && OpCode(e) == OpOf(root)
      && e.id == Trunc(after["id"].n)
      && e.name == after["name"].s
      && e.price == Decimal.DecodeDecimal(price["value"].s, Trunc(price["scale"].n))
    ensures Interpret(root).Err? ==> Interpret(root).error.key in {"after", "id", "name", "price", "value", "scale"}
  {
  }

  /** Delete: a line is printed exactly when the row image `before` has a
      numeric id, and it carries that id truncated. */
  lemma InterpretDelete(root: map<string, Json>)
    requires HasOp(root) && OpOf(root) == "d"
    ensures Interpret(root).Ok? <==> HasObject(PayloadOf(root), "before") && HasNumber(PayloadOf(root)["before"].fields, "id")
    ensures Interpret(root).Ok? ==> Interpret(root).value == Some(Deleted(Trunc(PayloadOf(root)["before"].fields["id"].n)))
    ensures Interpret(root).Err? ==> Interpret(root).error.key in {"before", "id"}
  {
  }

  /** Any other operation code prints no event line and does not fail. */
  lemma InterpretOtherOp(root: map<string, Json>)
    requires HasOp(root) && !IsUpsertOp(OpOf(root)) && OpOf(root) != "d"
    ensures Interpret(root) == Ok(None)
  {
  }

  /** A printed event's kind is the message's op. */
  lemma InterpretKeepsOp(root: map<string, Json>)
    requires Interpret(root).Ok? && Interpret(root).value.Some?
    ensures HasOp(root) && OpCode(Interpret(root).value.value) == OpOf(root)
  {
  }

  /** A delete consults only `before`: replacing `after` changes nothing. */
  lemma DeleteIgnoresAfter(root: map<string, Json>, after: Json)
    requires HasOp(root) && OpOf(root) == "d"
    ensures Interpret(root) == Interpret(root["payload" := JObject(PayloadOf(root)["after" := after])])
  {
    var p := PayloadOf(root)["after" := after];
    assert p["op"] == PayloadOf(root)["op"];
    assert Get(p, "before") == Get(PayloadOf(root), "before");
  }

  /** An upsert consults only `after`: replacing `before` changes nothing. */
  lemma UpsertIgnoresBefore(root: map<string, Json>, before: Json)
    requires HasOp(root) && IsUpsertOp(OpOf(root))
    ensures Interpret(root) == Interpret(root["payload" := JObject(PayloadOf(root)["before" := before])])
  {
    var p := PayloadOf(root)["before" := before];
    assert p["op"] == PayloadOf(root)["op"];
    assert Get(p, "after") == Get(PayloadOf(root), "after");
  }

  /** Only the payload is read: the envelope's other members (the schema)
      do not matter. */
  lemma InterpretReadsOnlyPayload(root: map<string, Json>)
    requires "payload" in root
    ensures Interpret(root) == Interpret(map["payload" := root["payload"]])
  {
  }

  /** A message whose JSON is `null` leaves `root` an empty map, and the
      first type assertion panics. */
  lemma InterpretNull()
    ensures Interpret(map[]) == Err(Panic("payload"))
  {
  }

  /** A create event as the connector sends it: product 1, "Widget", price
      10.50 of a NUMERIC(10, 2) column. */
  lemma InterpretCreateExample()
    ensures
      var price := JObject(map["scale" := JNumber(2.0), "value" := JString("BBo=")]);
      var after := JObject(map["id" := JNumber(1.0), "name" := JString("Widget"), "price" := price]);
      var payload := JObject(map["op" := JString("c"), "before" := JNull, "after" := after]);
      Interpret(map["payload" := payload]) == Ok(Some(Created(1, "Widget", 10.5)))
  {
    var priceMap := map["scale" := JNumber(2.0), "value" := JString("BBo=")];
    var afterMap := map["id" := JNumber(1.0), "name" := JString("Widget"), "price" := JObject(priceMap)];
    var payloadMap := map["op" := JString("c"), "before" := JNull, "after" := JObject(afterMap)];
    var root := map["payload" := JObject(payloadMap)];
    assert HasOp(root) && OpOf(root) == "c";
    assert GoodRow(afterMap) && PayloadOf(root)["after"].fields == afterMap;
    assert Trunc(1.0) == 1 && Trunc(2.0) == 2;
    Decimal.DecodeDecimalExample();
    InterpretUpsert(root);
  }

  /** A delete event: `after` is null and only `before.id` is read. */
  lemma InterpretDeleteExample()
    ensures
      var before := JObject(map["id" := JNumber(7.0), "name" := JString("Widget")]);
      var payload := JObject(map["op" := JString("d"), "before" := before, "after" := JNull]);
      Interpret(map["payload" := payload]) == Ok(Some(Deleted(7)))
  {
  }
}
