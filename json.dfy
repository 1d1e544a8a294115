/** The values an instance field of ScheduleMasterAPI can hold, and which of
    them Python's `json` module can encode. */
module Json {

  datatype Value =
    | Null
    | Bool(b: bool)
    | Int(i: int)
    | Str(s: string)
    | List(items: seq<Value>)
    | Object(members: map<string, Value>)
    /** Any Python object `json.dumps` rejects, such as the `requests.Session`. */
    | Foreign(kind: string)

  /** `json.dumps` succeeds on `v`: no foreign object occurs anywhere inside it. */
  predicate Serializable(v: Value)
  {
    match v
    case Foreign(_) => false
    case List(items) => forall i :: 0 <= i < |items| ==> Serializable(items[i])
    case Object(m) => forall k :: k in m ==> Serializable(m[k])
    case _ => true
  }

  /** What `json.load` can return. */
  type JsonValue = v: Value | Serializable(v) witness Null

  /** One step into a value: a member of an object, or an item of a list. */
  datatype Step = Key(name: string) | Index(i: nat)

  /** A foreign object anywhere inside a list or object is fatal to the whole. */
  lemma {:induction false} ForeignInsideIsNotSerializable(v: Value, path: seq<Step>)
    requires Reaches(v, path)
    ensures !Serializable(v)
    decreases path
  {
    if path != [] {
      match v
      case Object(m) => ForeignInsideIsNotSerializable(m[path[0].name], path[1..]);
      case List(items) => ForeignInsideIsNotSerializable(items[path[0].i], path[1..]);
      case _ =>
    }
  }

  /** Conversely, a value that cannot be encoded has a foreign object inside it. */
  lemma {:induction false} NotSerializableHasForeign(v: Value)
    requires !Serializable(v)
    ensures exists path :: Reaches(v, path)
    decreases v
  {
    match v
    case Foreign(_) =>
      assert Reaches(v, []);
    case List(items) =>
      var i :| 0 <= i < |items| && !Serializable(items[i]);
      NotSerializableHasForeign(items[i]);
      var rest :| Reaches(items[i], rest);
      assert ([Index(i)] + rest)[1..] == rest;
      assert Reaches(v, [Index(i)] + rest);
    case Object(m) =>
      var k :| k in m && !Serializable(m[k]);
      NotSerializableHasForeign(m[k]);
      var rest :| Reaches(m[k], rest);
      assert ([Key(k)] + rest)[1..] == rest;
      assert Reaches(v, [Key(k)] + rest);
  }

  /** Following the steps in `path` from `v` ends at a foreign object. */
  predicate Reaches(v: Value, path: seq<Step>)
    decreases path
  {
    if path == [] then v.Foreign?
    else match path[0]
      case Key(name) => v.Object? && name in v.members && Reaches(v.members[name], path[1..])
      case Index(i) => v.List? && i < |v.items| && Reaches(v.items[i], path[1..])
  }
}
