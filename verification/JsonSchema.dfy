/**
 BSON values and the schema keywords the compiler emits, each with its own meaning: `multipleOf`,
 `items` and `properties` as in sections 5.1.1, 5.3.1 and 5.4.4 of JSON Schema Validation draft 4, and
 MongoDB's `bsonType` in place of `type`.
 */
module JsonSchema {
  import opened Wrappers

  datatype Bson =
    | Null
    | Int(n: int)
    | Long(n: int)
    | Double(x: real)
    | Decimal(x: real)
    | Text(s: string)
    | Obj(fields: map<string, Bson>)
    | Arr(elements: seq<Bson>)

  datatype BsonType = IntType | LongType | DoubleType | DecimalType | NullType | TextType | ObjectType | ArrayType

  datatype Schema = Schema(
    bsonType: set<BsonType>,
    multipleOf: Option<int>,
    properties: Option<map<string, Schema>>,
    items: Option<Schema>)

  function TypeOf(v: Bson): BsonType {
    match v
    case Null => NullType
    case Int(_) => IntType
    case Long(_) => LongType
    case Double(_) => DoubleType
    case Decimal(_) => DecimalType
    case Text(_) => TextType
    case Obj(_) => ObjectType
    case Arr(_) => ArrayType
  }

  /** A number is a multiple of 1 when it is integral; other divisors do not occur. Non-numbers pass. */
  predicate MultipleOf(v: Bson, m: int) {
    match v
    case Int(n) => m == 1 || (m != 0 && n % m == 0)
    case Long(n) => m == 1 || (m != 0 && n % m == 0)
    case Double(x) => x == x.Floor as real && (m == 1 || (m != 0 && x.Floor % m == 0))
    case Decimal(x) => x == x.Floor as real && (m == 1 || (m != 0 && x.Floor % m == 0))
    case _ => true
  }

  ghost predicate Accepts(s: Schema, v: Bson)
    decreases v
  {
    && TypeOf(v) in s.bsonType
    && (s.multipleOf.Some? ==> MultipleOf(v, s.multipleOf.value))
    && (s.properties.Some? && v.Obj? ==>
          forall k | k in s.properties.value && k in v.fields :: Accepts(s.properties.value[k], v.fields[k]))
    && (s.items.Some? && v.Arr? ==>
          forall i | 0 <= i < |v.elements| :: Accepts(s.items.value, v.elements[i]))
  }
}
