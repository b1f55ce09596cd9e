/**
 Serialisation of message parameters (`pycroft/helpers/i18n/serde.py`).  Values of decimals, dates and
 times stand for their canonical texts; what the standard library reads is a parameter.
 */
module Serde {
  import opened Wrappers

  datatype Error = KeyError | TypeError | ValueError | InvalidOperation | OverflowError

  datatype Result<T> = Ok(value: T) | Err(error: Error)

  datatype Json =
    | Null
    | JBool(b: bool)
    | JInt(i: int)
    | JFloat(r: real)
    | JStr(s: string)
    | JList(items: seq<Json>)
    | JObject(fields: map<string, Json>)

  // ----- types and their names -----

  datatype Type =
    | NoneType | BoolType | StrType | IntType | FloatType | DecimalType | MoneyType
    | DateType | DateTimeType | TimeType | TimeDeltaType | IntervalType

  /** `qualified_typename`. */
  function NameOf(t: Type): string {
    match t
    case NoneType => "builtins.NoneType"
    case BoolType => "builtins.bool"
    case StrType => "builtins.str"
    case IntType => "builtins.int"
    case FloatType => "builtins.float"
    case DecimalType => "decimal.Decimal"
    case MoneyType => "pycroft.helpers.i18n.types.Money"
    case DateType => "datetime.date"
    case DateTimeType => "datetime.datetime"
    case TimeType => "datetime.time"
    case TimeDeltaType => "datetime.timedelta"
    case IntervalType => "pycroft.helpers.interval.Interval"
  }

  const TYPES: seq<Type> :=
    [NoneType, BoolType, StrType, IntType, FloatType, DecimalType, MoneyType,
     DateType, DateTimeType, TimeType, TimeDeltaType, IntervalType]

  /** The lookup in `deserialize_map`. */
  function TypeNamed(types: seq<Type>, name: string): Option<Type> {
    if types == [] then None
    else if NameOf(types[0]) == name then Some(types[0])
    else TypeNamed(types[1..], name)
  }

  /** Names are told apart by their length, or by one letter of theirs. */
  lemma {:induction false} NamesDiffer(t: Type, u: Type)
    requires t != u
    ensures NameOf(t) != NameOf(u)
  {
    assert NameOf(DateType)[9] == 'd' && NameOf(TimeType)[9] == 't';
    assert NameOf(BoolType)[9] == 'b' && NameOf(DateType)[8] == '.' && NameOf(BoolType)[8] == '.';
    assert NameOf(BoolType)[0] == 'b' && NameOf(DateType)[0] == 'd' && NameOf(TimeType)[0] == 'd';
    assert NameOf(StrType)[9] == 's' && NameOf(IntType)[9] == 'i';
  }

  lemma {:induction false} TypeNamedFrom(types: seq<Type>, t: Type)
    requires t in types
    ensures TypeNamed(types, NameOf(t)) == Some(t)
  {
    if types[0] != t {
      NamesDiffer(types[0], t);
      TypeNamedFrom(types[1..], t);
    }
  }

  lemma {:induction false} TypeOfName(t: Type)
    ensures TypeNamed(TYPES, NameOf(t)) == Some(t)
  {
    assert t in TYPES by {
      match t
      case NoneType => assert TYPES[0] == t;
      case BoolType => assert TYPES[1] == t;
      case StrType => assert TYPES[2] == t;
      case IntType => assert TYPES[3] == t;
      case FloatType => assert TYPES[4] == t;
      case DecimalType => assert TYPES[5] == t;
      case MoneyType => assert TYPES[6] == t;
      case DateType => assert TYPES[7] == t;
      case DateTimeType => assert TYPES[8] == t;
      case TimeType => assert TYPES[9] == t;
      case TimeDeltaType => assert TYPES[10] == t;
      case IntervalType => assert TYPES[11] == t;
    }
    TypeNamedFrom(TYPES, t);
  }

  // ----- values -----

  datatype Text = DecimalText | DateText | DateTimeText | TimeText

  /** The class of a value: the type itself, a subclass of it, or a class of none of the types. */
  datatype Class = Own | Sub(name: string) | Foreign(name: string)

  datatype Data =
    | None_
    | Bool(b: bool)
    | Str(s: string)
    | Int(i: int)
    | Float(r: real)
    | Written(kind: Text, text: string)
    | Money(amount: string, currency: Json)
    | Delta(days: int, seconds: int, microseconds: int)
    | Interval(lower: Bound, upper: Bound)
    | Raw(json: Json)

  datatype End = NegInf | At(value: Param) | PosInf

  datatype Bound = Bound(end: End, closed: bool)

  datatype Param = Param(cls: Class, data: Data)

  /** `Bound.__new__`: an infinite bound is never closed. */
  function MakeBound(end: End, closed: bool): Bound {
    Bound(end, end.At? && closed)
  }

  /**
   The standard library: what it reads as a value of a kind, written canonically, and whether one value
   is less than another; `None` are values that do not compare.
   */
  datatype Library = Library(read: (Text, Json) -> Result<string>, less: (Param, Param) -> Option<bool>)

  /** What is canonical reads as itself, as in `Decimal(str(d)) == d`; nothing there looks up keys. */
  ghost predicate Promises(lib: Library) {
    forall k, j :: ReadsAgain(lib, k, j)
  }

  ghost predicate ReadsAgain(lib: Library, k: Text, j: Json) {
    match lib.read(k, j)
    case Ok(t) => lib.read(k, JStr(t)) == Ok(t)
    case Err(e) => e != KeyError
  }

  /** `__lt__` of bounds, on which the constructor of intervals relies. */
  function BoundLess(lib: Library, a: Bound, b: Bound): Option<bool> {
    if a.end.PosInf? then Some(b.end.PosInf?)
    else if a.end.NegInf? then Some(true)
    else if b.end.PosInf? then Some(true)
    else if b.end.NegInf? then Some(false)
    else lib.less(a.end.value, b.end.value)
  }

  /** `Interval(lower, upper)`. */
  function MakeInterval(lib: Library, lower: Bound, upper: Bound): Result<Data> {
    match BoundLess(lib, upper, lower)
    case None => Err(TypeError)
    case Some(above) => if above then Err(ValueError) else Ok(Interval(lower, upper))
  }

  /** Refused are a begin at +oo, an end at -oo, and an end below the begin; values must be comparable. */
  lemma {:induction false} MakeIntervalMeaning(lib: Library, lower: Bound, upper: Bound)
    ensures lower.end.PosInf? || upper.end.NegInf? ==> MakeInterval(lib, lower, upper) == Err(ValueError)
    ensures (lower.end.NegInf? && !upper.end.NegInf?) || (upper.end.PosInf? && !lower.end.PosInf?) ==>
              MakeInterval(lib, lower, upper) == Ok(Interval(lower, upper))
    ensures lower.end.At? && upper.end.At? ==>
      match lib.less(upper.end.value, lower.end.value)
      case None => MakeInterval(lib, lower, upper) == Err(TypeError)
      case Some(true) => MakeInterval(lib, lower, upper) == Err(ValueError)
      case Some(false) => MakeInterval(lib, lower, upper) == Ok(Interval(lower, upper))
  {
  }

  predicate Normal(days: int, seconds: int, microseconds: int) {
    -999_999_999 <= days <= 999_999_999 && 0 <= seconds < 86_400 && 0 <= microseconds < 1_000_000
  }

  function Microseconds(days: int, seconds: int, microseconds: int): int {
    days * 86_400_000_000 + seconds * 1_000_000 + microseconds
  }

  /** `timedelta` of so many microseconds. */
  function MakeDelta(total: int): Result<Data> {
    var days := total / 86_400_000_000;
    var seconds := total % 86_400_000_000 / 1_000_000;
    if -999_999_999 <= days <= 999_999_999 then Ok(Delta(days, seconds, total % 1_000_000)) else Err(OverflowError)
  }

  lemma DeltaNormal(total: int)
    ensures MakeDelta(total).Ok? ==> var d := MakeDelta(total).value;
      Normal(d.days, d.seconds, d.microseconds) && Microseconds(d.days, d.seconds, d.microseconds) == total
  {
  }

  lemma WholeDays(days: int, rest: int)
    requires 0 <= rest < 86_400_000_000
    ensures (days * 86_400_000_000 + rest) / 86_400_000_000 == days
    ensures (days * 86_400_000_000 + rest) % 86_400_000_000 == rest
  {
  }

  lemma WholeSeconds(seconds: int, rest: int)
    requires 0 <= rest < 1_000_000
    ensures (seconds * 1_000_000 + rest) / 1_000_000 == seconds
    ensures (seconds * 1_000_000 + rest) % 1_000_000 == rest
  {
  }

  /** A normal duration is what its microseconds make. */
  lemma {:induction false} DeltaAgain(days: int, seconds: int, microseconds: int)
    requires Normal(days, seconds, microseconds)
    ensures MakeDelta(Microseconds(days, seconds, microseconds)) == Ok(Delta(days, seconds, microseconds))
  {
    WholeDays(days, seconds * 1_000_000 + microseconds);
    WholeSeconds(seconds, microseconds);
    WholeSeconds(days * 86_400 + seconds, microseconds);
  }

  // ----- legal values -----

  /** What the constructors of the classes make sure of. */
  predicate Legal(lib: Library, p: Param)
    decreases p
  {
    match p.data
    case Written(kind, text) => lib.read(kind, JStr(text)) == Ok(text)
    case Money(amount, _) => lib.read(DecimalText, JStr(amount)) == Ok(amount)
    case Delta(d, s, m) => Normal(d, s, m)
    case Interval(lower, upper) =>
      && (if lower.end.At? then Legal(lib, lower.end.value) else !lower.closed)
      && (if upper.end.At? then Legal(lib, upper.end.value) else !upper.closed)
      && MakeInterval(lib, lower, upper).Ok?
    case _ => true
  }

  /** The class of the value and of all values inside it is one of the types, or a subclass of one. */
  predicate Supported(p: Param)
    decreases p
  {
    && !p.cls.Foreign?
    && !p.data.Raw?
    && (p.data.Interval? ==>
          && (p.data.lower.end.At? ==> Supported(p.data.lower.end.value))
          && (p.data.upper.end.At? ==> Supported(p.data.upper.end.value)))
  }

  /** The value with its subclasses forgotten. */
  function Base(p: Param): Param
    decreases p
  {
    Param(Own,
          if p.data.Interval? then
            Interval(if p.data.lower.end.At? then Bound(At(Base(p.data.lower.end.value)), p.data.lower.closed)
                     else p.data.lower,
                     if p.data.upper.end.At? then Bound(At(Base(p.data.upper.end.value)), p.data.upper.closed)
                     else p.data.upper)
          else p.data)
  }

  /** No subclasses to forget. */
  predicate Exact(p: Param) {
    Base(p) == p
  }

  // ----- serialize_param -----

  /** An entry of a method resolution order. */
  datatype Ancestor = Known(t: Type) | Other

  function OwnMro(d: Data): seq<Ancestor> {
    match d
    case None_ => [Known(NoneType), Other]
    case Bool(_) => [Known(BoolType), Known(IntType), Other]
    case Str(_) => [Known(StrType), Other]
    case Int(_) => [Known(IntType), Other]
    case Float(_) => [Known(FloatType), Other]
    case Written(DecimalText, _) => [Known(DecimalType), Other]
    case Written(DateText, _) => [Known(DateType), Other]
    case Written(DateTimeText, _) => [Known(DateTimeType), Known(DateType), Other]
    case Written(TimeText, _) => [Known(TimeType), Other]
    case Money(_, _) => [Known(MoneyType), Other, Other]
    case Delta(_, _, _) => [Known(TimeDeltaType), Other]
    case Interval(_, _) => [Known(IntervalType), Other, Other, Other]
    case Raw(_) => [Other, Other]
  }

  function Mro(p: Param): seq<Ancestor> {
    match p.cls
    case Own => OwnMro(p.data)
    case Sub(_) => [Other] + OwnMro(p.data)
    case Foreign(_) => [Other, Other]
  }

  /** The first type of the order that has a serializer. */
  function FirstKnown(mro: seq<Ancestor>): Option<Type> {
    if mro == [] then None
    else if mro[0].Known? then Some(mro[0].t)
    else FirstKnown(mro[1..])
  }

  function TypeOf(p: Param): Option<Type> {
    FirstKnown(Mro(p))
  }

  function Tagged(t: Type, value: Json): Json {
    JObject(map["type" := JStr(NameOf(t)), "value" := value])
  }

  /** A value under the name of its type. */
  function Entry(name: string, value: Json): Json {
    JObject(map["type" := JStr(name), "value" := value])
  }

  function SerializeBound(b: Bound): Result<Json>
    decreases b, 0
  {
    if b.end.At? then Serialize(b.end.value) else Ok(Null)
  }

  function SerializeInterval(lower: Bound, upper: Bound, l: Json, u: Json): Json {
    JObject(map["lower_closed" := JBool(lower.closed), "lower_value" := l,
                "upper_closed" := JBool(upper.closed), "upper_value" := u])
  }

  function SerializeData(d: Data): Result<Json>
    decreases d, 0
  {
    match d
    case None_ => Ok(Null)
    case Bool(b) => Ok(JBool(b))
    case Str(s) => Ok(JStr(s))
    case Int(i) => Ok(JInt(i))
    case Float(r) => Ok(JFloat(r))
    case Written(_, text) => Ok(JStr(text))
    case Money(amount, currency) => Ok(JList([JStr(amount), currency]))
    case Delta(days, s, m) => Ok(JObject(map["days" := JInt(days), "seconds" := JInt(s), "microseconds" := JInt(m)]))
    case Interval(lower, upper) =>
      (match SerializeBound(lower)
       case Err(e) => Err(e)
       case Ok(l) =>
         match SerializeBound(upper)
         case Err(e) => Err(e)
         case Ok(u) => Ok(SerializeInterval(lower, upper, l, u)))
    case Raw(_) => Err(TypeError)
  }

  /** `serialize_param`. */
  function Serialize(p: Param): Result<Json>
    decreases p, 0
  {
    match TypeOf(p)
    case None => Err(TypeError)
    case Some(t) =>
      match SerializeData(p.data)
      case Err(e) => Err(e)
      case Ok(value) => Ok(Tagged(t, value))
  }

  // ----- deserialize_param -----

  /** The serializer `identity` read backwards: whatever the text holds. */
  function FromJson(j: Json): Data {
    match j
    case Null => None_
    case JBool(b) => Bool(b)
    case JInt(i) => Int(i)
    case JFloat(r) => Float(r)
    case JStr(s) => Str(s)
    case _ => Raw(j)
  }

  function ReadText(lib: Library, kind: Text, j: Json): Result<Data> {
    match lib.read(kind, j)
    case Err(e) => Err(e)
    case Ok(text) => Ok(Written(kind, text))
  }

  /** What `v[0]`, `v[1]` and so on yield. */
  function Elements(j: Json): Result<seq<Json>> {
    match j
    case JList(items) => Ok(items)
    case JStr(s) => Ok(Characters(s))
    case JObject(_) => Err(KeyError)
    case _ => Err(TypeError)
  }

  function Characters(s: string): seq<Json> {
    if s == "" then [] else [JStr(s[..1])] + Characters(s[1..])
  }

  /** `deserialize_money`: only an index error becomes a `ValueError`. */
  function ReadMoney(lib: Library, j: Json): Result<Data> {
    match Elements(j)
    case Err(e) => Err(e)
    case Ok(items) =>
      if items == [] then Err(ValueError)
      else match lib.read(DecimalText, items[0])
        case Err(e) => Err(e)
        case Ok(amount) => if |items| < 2 then Err(ValueError) else Ok(Money(amount, items[1]))
  }

  /** An integer argument, 0 if it is missing; booleans are integers. */
  function Count(fields: map<string, Json>, key: string): Result<int> {
    if key !in fields then Ok(0)
    else if fields[key].JInt? then Ok(fields[key].i)
    else if fields[key].JBool? then Ok(if fields[key].b then 1 else 0)
    else Err(TypeError)
  }

  const UNITS: set<string> := {"weeks", "days", "hours", "minutes", "seconds", "milliseconds", "microseconds"}

  /** The sum of the arguments, in microseconds. */
  function Duration(fields: map<string, Json>): Result<int> {
    var weeks, days, hours := Count(fields, "weeks"), Count(fields, "days"), Count(fields, "hours");
    var minutes, seconds := Count(fields, "minutes"), Count(fields, "seconds");
    var millis, micros := Count(fields, "milliseconds"), Count(fields, "microseconds");
    if weeks.Err? || days.Err? || hours.Err? || minutes.Err? || seconds.Err? || millis.Err? || micros.Err?
    then Err(TypeError)
    else Ok(Microseconds(7 * weeks.value + days.value, 3600 * hours.value + 60 * minutes.value + seconds.value,
                         1000 * millis.value + micros.value))
  }

  /** `timedelta(**v)`. */
  function ReadDelta(j: Json): Result<Data> {
    if !j.JObject? || !(j.fields.Keys <= UNITS) then Err(TypeError)
    else match Duration(j.fields)
      case Err(e) => Err(e)
      case Ok(total) => MakeDelta(total)
  }

  /** Inside `deserialize_interval` a `KeyError` becomes a `ValueError`, also one from within a bound. */
  function Caught<T>(r: Result<T>): Result<T> {
    if r == Err(KeyError) then Err(ValueError) else r
  }

  function ReadEnd(lib: Library, j: Json, key: string, infinite: End): Result<End>
    requires j.JObject?
    decreases j, 0
  {
    if key !in j.fields then Err(ValueError)
    else if j.fields[key].Null? then Ok(infinite)
    else match Caught(Deserialize(lib, j.fields[key]))
      case Err(e) => Err(e)
      case Ok(p) => Ok(At(p))
  }

  function ReadInterval(lib: Library, j: Json): Result<Data>
    decreases j, 1
  {
    if !j.JObject? then Err(TypeError)
    else
      match ReadEnd(lib, j, "lower_value", NegInf)
      case Err(e) => Err(e)
      case Ok(lower) =>
        if "lower_closed" !in j.fields then Err(ValueError)
        else match ReadEnd(lib, j, "upper_value", PosInf)
          case Err(e) => Err(e)
          case Ok(upper) =>
            if "upper_closed" !in j.fields then Err(ValueError)
            else if !j.fields["lower_closed"].JBool? || !j.fields["upper_closed"].JBool? then Err(ValueError)
            else MakeInterval(lib, MakeBound(lower, j.fields["lower_closed"].b),
                              MakeBound(upper, j.fields["upper_closed"].b))
  }

  function ReadAs(lib: Library, t: Type, j: Json): Result<Data>
    decreases j, 2
  {
    match t
    case DecimalType => ReadText(lib, DecimalText, j)
    case DateType => ReadText(lib, DateText, j)
    case DateTimeType => ReadText(lib, DateTimeText, j)
    case TimeType => ReadText(lib, TimeText, j)
    case MoneyType => ReadMoney(lib, j)
    case TimeDeltaType => ReadDelta(j)
    case IntervalType => ReadInterval(lib, j)
    case _ => Ok(FromJson(j))
  }

  /** `deserialize_param`. */
  function Deserialize(lib: Library, j: Json): Result<Param>
    decreases j, 3
  {
    if !j.JObject? then Err(TypeError)
    else if "type" !in j.fields then Err(KeyError)
    else if !j.fields["type"].JStr? then Err(TypeError)
    else match TypeNamed(TYPES, j.fields["type"].s)
      case None => Err(TypeError)
      case Some(t) =>
        if "value" !in j.fields then Err(KeyError)
        else match ReadAs(lib, t, j.fields["value"])
          case Err(e) => Err(e)
          case Ok(d) => Ok(Param(Own, d))
  }

  // ----- round trips -----

  function DataType(d: Data): Option<Type> {
    FirstKnown(OwnMro(d))
  }

  lemma {:induction false} TypeOfSupported(p: Param)
    requires !p.cls.Foreign?
    ensures TypeOf(p) == DataType(p.data)
  {
    if p.cls.Sub? {
      assert ([Other] + OwnMro(p.data))[1..] == OwnMro(p.data);
    }
  }

  lemma {:induction false} TypeOfForeign(p: Param)
    requires p.cls.Foreign?
    ensures TypeOf(p) == None
  {
    assert [Other, Other][1..] == [Other] && [Other][1..] == [];
  }

  /** The types by data: the most specific one, not `int` for a `bool` nor `date` for a `datetime`. */
  lemma {:induction false} DataTypes(d: Data)
    ensures d.Raw? <==> DataType(d) == None
    ensures d.None_? <==> DataType(d) == Some(NoneType)
    ensures d.Bool? <==> DataType(d) == Some(BoolType)
    ensures d.Str? <==> DataType(d) == Some(StrType)
    ensures d.Int? <==> DataType(d) == Some(IntType)
    ensures d.Float? <==> DataType(d) == Some(FloatType)
    ensures d.Written? ==> DataType(d) == Some(TextType(d.kind))
    ensures d.Money? <==> DataType(d) == Some(MoneyType)
    ensures d.Delta? <==> DataType(d) == Some(TimeDeltaType)
    ensures d.Interval? <==> DataType(d) == Some(IntervalType)
  {
    assert [Other, Other][1..] == [Other] && [Other][1..] == [];
  }

  function TextType(kind: Text): Type {
    match kind
    case DecimalText => DecimalType
    case DateText => DateType
    case DateTimeText => DateTimeType
    case TimeText => TimeType
  }

  /** Reading what is tagged with a type is reading its value as that type. */
  lemma {:induction false} ReadTagged(lib: Library, t: Type, value: Json)
    ensures Deserialize(lib, Tagged(t, value))
            == match ReadAs(lib, t, value) case Err(e) => Err(e) case Ok(d) => Ok(Param(Own, d))
  {
    TypeOfName(t);
    var fields := map["type" := JStr(NameOf(t)), "value" := value];
    assert "type" in fields && "value" in fields && fields["type"] == JStr(NameOf(t)) && fields["value"] == value by {
      assert |"type"| != |"value"|;
    }
    assert Tagged(t, value) == JObject(fields);
  }

  lemma {:induction false} ReadOneBound(lib: Library, j: Json, key: string, infinite: End, b: Bound, s: Json)
    requires j.JObject? && key in j.fields && j.fields[key] == s
    requires b.end.At? ==> s.JObject? && Deserialize(lib, s) == Ok(b.end.value)
    requires !b.end.At? ==> s.Null? && b.end == infinite
    ensures ReadEnd(lib, j, key, infinite) == Ok(b.end)
  {
  }

  lemma {:induction false} IntervalFields(lower: Bound, upper: Bound, l: Json, u: Json)
    ensures var f := SerializeInterval(lower, upper, l, u).fields;
      && "lower_value" in f && f["lower_value"] == l && "upper_value" in f && f["upper_value"] == u
      && "lower_closed" in f && f["lower_closed"] == JBool(lower.closed)
      && "upper_closed" in f && f["upper_closed"] == JBool(upper.closed)
  {
    assert |"lower_value"| != |"lower_closed"| && "lower_value"[0] != "upper_value"[0];
    assert "lower_closed"[0] != "upper_closed"[0];
  }

  /** A legal interval is bounded below by no +oo and above by no -oo. */
  lemma BoundsOfLegal(lib: Library, lower: Bound, upper: Bound)
    requires MakeInterval(lib, lower, upper).Ok?
    ensures !lower.end.PosInf? && !upper.end.NegInf?
  {
  }

  lemma {:induction false} IntervalRoundTrip(lib: Library, lower: Bound, upper: Bound, l: Json, u: Json)
    requires MakeInterval(lib, lower, upper).Ok?
    requires if lower.end.At? then l.JObject? && Deserialize(lib, l) == Ok(lower.end.value)
             else l.Null? && !lower.closed
    requires if upper.end.At? then u.JObject? && Deserialize(lib, u) == Ok(upper.end.value)
             else u.Null? && !upper.closed
    ensures ReadInterval(lib, SerializeInterval(lower, upper, l, u)) == Ok(Interval(lower, upper))
  {
    BoundsOfLegal(lib, lower, upper);
    var j := SerializeInterval(lower, upper, l, u);
    IntervalFields(lower, upper, l, u);
    ReadOneBound(lib, j, "lower_value", NegInf, lower, l);
    ReadOneBound(lib, j, "upper_value", PosInf, upper, u);
    assert MakeBound(lower.end, lower.closed) == lower && MakeBound(upper.end, upper.closed) == upper;
  }

  /** Names of units are told apart by their lengths, or by one letter. */
  lemma {:induction false} UnitsDiffer()
    ensures "days" != "weeks" && "days" != "hours" && "days" != "minutes" && "days" != "milliseconds"
    ensures "seconds" != "weeks" && "seconds" != "hours" && "seconds" != "minutes" && "seconds" != "milliseconds"
    ensures "microseconds" != "weeks" && "microseconds" != "hours" && "microseconds" != "minutes"
            && "microseconds" != "milliseconds"
    ensures "days" != "seconds" && "days" != "microseconds" && "seconds" != "microseconds"
  {
    assert "seconds"[0] != "minutes"[0] && "microseconds"[2] != "milliseconds"[2];
    assert |"days"| == 4 && |"weeks"| == |"hours"| == 5 && |"seconds"| == 7;
    assert |"microseconds"| == |"milliseconds"| == 12;
  }

  /** An argument of a duration: a number, a boolean or nothing. */
  lemma {:induction false} CountMeaning(fields: map<string, Json>, key: string)
    ensures key !in fields ==> Count(fields, key) == Ok(0)
    ensures key in fields && fields[key].JInt? ==> Count(fields, key) == Ok(fields[key].i)
    ensures key in fields && fields[key] == JBool(true) ==> Count(fields, key) == Ok(1)
    ensures key in fields && fields[key] == JBool(false) ==> Count(fields, key) == Ok(0)
    ensures Count(fields, key).Err? <==> key in fields && !fields[key].JInt? && !fields[key].JBool?
  {
  }

  /** A duration is the sum of its weeks, days and so on, as microseconds. */
  lemma {:induction false} DeltaRead(fields: map<string, Json>, weeks: int, days: int, hours: int, minutes: int,
                                     seconds: int, millis: int, micros: int)
    requires fields.Keys <= {"microseconds", "milliseconds", "seconds", "minutes", "hours", "days", "weeks"}
    requires Count(fields, "weeks") == Ok(weeks) && Count(fields, "days") == Ok(days)
    requires Count(fields, "hours") == Ok(hours) && Count(fields, "minutes") == Ok(minutes)
    requires Count(fields, "seconds") == Ok(seconds)
    requires Count(fields, "milliseconds") == Ok(millis) && Count(fields, "microseconds") == Ok(micros)
    ensures ReadDelta(JObject(fields)) ==
      MakeDelta(604_800_000_000 * weeks + 86_400_000_000 * days + 3_600_000_000 * hours + 60_000_000 * minutes
                + 1_000_000 * seconds + 1000 * millis + micros)
  {
    assert fields.Keys <= UNITS;
    DurationSum(fields, weeks, days, hours, minutes, seconds, millis, micros);
  }

  lemma DurationSum(fields: map<string, Json>, weeks: int, days: int, hours: int, minutes: int,
                    seconds: int, millis: int, micros: int)
    requires Count(fields, "weeks") == Ok(weeks) && Count(fields, "days") == Ok(days)
    requires Count(fields, "hours") == Ok(hours) && Count(fields, "minutes") == Ok(minutes)
    requires Count(fields, "seconds") == Ok(seconds)
    requires Count(fields, "milliseconds") == Ok(millis) && Count(fields, "microseconds") == Ok(micros)
    ensures Duration(fields) ==
      Ok(604_800_000_000 * weeks + 86_400_000_000 * days + 3_600_000_000 * hours + 60_000_000 * minutes
         + 1_000_000 * seconds + 1000 * millis + micros)
  {
  }

  /** Anything but numbers under these names is a `TypeError`. */
  lemma {:induction false} DeltaTypeErrorIff(j: Json)
    ensures ReadDelta(j) == Err(TypeError) <==>
      !j.JObject? ||
      exists k :: k in j.fields &&
        (k !in {"microseconds", "milliseconds", "seconds", "minutes", "hours", "days", "weeks"}
         || (!j.fields[k].JInt? && !j.fields[k].JBool?))
  {
    if j.JObject? && j.fields.Keys <= UNITS && Duration(j.fields).Ok? {
      MakeDeltaErrs(Duration(j.fields).value);
      forall k | k in j.fields
        ensures j.fields[k].JInt? || j.fields[k].JBool?
      {
        assert k in UNITS && Count(j.fields, k).Ok?;
      }
    }
  }

  lemma MakeDeltaErrs(total: int)
    ensures MakeDelta(total) != Err(TypeError)
  {
  }

  lemma {:induction false} DeltaRoundTrip(days: int, seconds: int, microseconds: int)
    requires Normal(days, seconds, microseconds)
    ensures ReadDelta(JObject(map["days" := JInt(days), "seconds" := JInt(seconds),
                                  "microseconds" := JInt(microseconds)]))
            == Ok(Delta(days, seconds, microseconds))
  {
    UnitsDiffer();
    var fields := map["days" := JInt(days), "seconds" := JInt(seconds), "microseconds" := JInt(microseconds)];
    assert Count(fields, "weeks") == Ok(0) && Count(fields, "hours") == Ok(0) && Count(fields, "minutes") == Ok(0);
    assert Count(fields, "milliseconds") == Ok(0);
    assert Count(fields, "days") == Ok(days) && Count(fields, "seconds") == Ok(seconds)
      && Count(fields, "microseconds") == Ok(microseconds);
    assert Duration(fields) == Ok(Microseconds(days, seconds, microseconds));
    assert fields.Keys <= UNITS;
    DeltaAgain(days, seconds, microseconds);
  }

  lemma {:induction false} FlatRoundTrip(lib: Library, d: Data)
    requires !d.Interval? && !d.Raw? && Legal(lib, Param(Own, d))
    ensures SerializeData(d).Ok? && DataType(d).Some?
    ensures ReadAs(lib, DataType(d).value, SerializeData(d).value) == Ok(d)
  {
    DataTypes(d);
    if d.Delta? {
      DeltaRoundTrip(d.days, d.seconds, d.microseconds);
    }
  }

  /** One bound: what its serialisation reads as, provided the value in it makes the round trip. */
  lemma {:induction false} BoundSerialized(b: Bound)
    ensures b.end.At? && Serialize(b.end.value).Ok? ==> SerializeBound(b).Ok? && SerializeBound(b).value.JObject?
    ensures !b.end.At? ==> SerializeBound(b) == Ok(Null)
  {
  }

  /**
   The round trip: every supported value comes back, without its subclasses, as long as what is then to
   be rebuilt is legal; in particular the constructor of intervals does not raise.
   */
  lemma {:induction false} RoundTripBase(lib: Library, p: Param)
    requires Supported(p) && Legal(lib, Base(p))
    ensures Serialize(p).Ok?
    ensures Deserialize(lib, Serialize(p).value) == Ok(Base(p))
    decreases p
  {
    TypeOfSupported(p);
    DataTypes(p.data);
    if p.data.Interval? {
      var lower, upper := p.data.lower, p.data.upper;
      BoundSerialized(lower);
      BoundSerialized(upper);
      if lower.end.At? {
        RoundTripBase(lib, lower.end.value);
      }
      if upper.end.At? {
        RoundTripBase(lib, upper.end.value);
      }
      var l, u := SerializeBound(lower).value, SerializeBound(upper).value;
      var base := Base(p).data;
      IntervalRoundTrip(lib, base.lower, base.upper, l, u);
      assert SerializeInterval(base.lower, base.upper, l, u) == SerializeInterval(lower, upper, l, u);
      ReadTagged(lib, IntervalType, SerializeInterval(lower, upper, l, u));
    } else {
      FlatRoundTrip(lib, p.data);
      ReadTagged(lib, DataType(p.data).value, SerializeData(p.data).value);
    }
  }

  /** Values of the very types come back as they were. */
  lemma {:induction false} RoundTrip(lib: Library, p: Param)
    requires Supported(p) && Legal(lib, p) && Exact(p)
    ensures Serialize(p).Ok? && Deserialize(lib, Serialize(p).value) == Ok(p)
  {
    RoundTripBase(lib, p);
  }

  lemma BoundSerializes(b: Bound)
    ensures SerializeBound(b) == if b.end.At? then Serialize(b.end.value) else Ok(Null)
  {
  }

  /** A value serialises exactly when it is supported; otherwise there is a `TypeError`. */
  lemma {:induction false} SerializesIff(p: Param)
    ensures Serialize(p).Ok? <==> Supported(p)
    ensures Serialize(p).Err? ==> Serialize(p).error == TypeError
    decreases p
  {
    DataTypes(p.data);
    if p.cls.Foreign? {
      TypeOfForeign(p);
    } else {
      TypeOfSupported(p);
      if p.data.Interval? {
        if p.data.lower.end.At? {
          SerializesIff(p.data.lower.end.value);
        }
        if p.data.upper.end.At? {
          SerializesIff(p.data.upper.end.value);
        }
        BoundSerializes(p.data.lower);
        BoundSerializes(p.data.upper);
      }
    }
  }

  /** What is written for a value of a built-in type. */
  lemma {:induction false} BuiltinWrittenAs(b: bool, s: string, i: int, r: real)
    ensures Serialize(Param(Own, None_)) == Ok(Entry("builtins.NoneType", Null))
    ensures Serialize(Param(Own, Bool(b))) == Ok(Entry("builtins.bool", JBool(b)))
    ensures Serialize(Param(Own, Str(s))) == Ok(Entry("builtins.str", JStr(s)))
    ensures Serialize(Param(Own, Int(i))) == Ok(Entry("builtins.int", JInt(i)))
    ensures Serialize(Param(Own, Float(r))) == Ok(Entry("builtins.float", JFloat(r)))
  {
  }

  /** What is written for a decimal, a date, an instant and a time. */
  lemma {:induction false} TextWrittenAs(s: string)
    ensures Serialize(Param(Own, Written(DecimalText, s))) == Ok(Entry("decimal.Decimal", JStr(s)))
    ensures Serialize(Param(Own, Written(DateText, s))) == Ok(Entry("datetime.date", JStr(s)))
    ensures Serialize(Param(Own, Written(DateTimeText, s))) == Ok(Entry("datetime.datetime", JStr(s)))
    ensures Serialize(Param(Own, Written(TimeText, s))) == Ok(Entry("datetime.time", JStr(s)))
  {
  }

  /** What is written for money and for a duration. */
  lemma {:induction false} MoneyWrittenAs(s: string, currency: Json, days: int, seconds: int, micros: int)
    ensures Serialize(Param(Own, Money(s, currency)))
            == Ok(Entry("pycroft.helpers.i18n.types.Money", JList([JStr(s), currency])))
    ensures Serialize(Param(Own, Delta(days, seconds, micros)))
            == Ok(Entry("datetime.timedelta",
                        JObject(map["days" := JInt(days), "seconds" := JInt(seconds), "microseconds" := JInt(micros)])))
  {
  }

  /** What is written for an interval of values that can be written. */
  lemma {:induction false} IntervalWrittenAs(p: Param, q: Param, l: Json, u: Json, lower: bool, upper: bool)
    requires Serialize(p) == Ok(l) && Serialize(q) == Ok(u)
    ensures Serialize(Param(Own, Interval(Bound(At(p), lower), Bound(At(q), upper))))
            == Ok(Entry("pycroft.helpers.interval.Interval",
                        JObject(map["lower_closed" := JBool(lower), "lower_value" := l,
                                    "upper_closed" := JBool(upper), "upper_value" := u])))
    ensures Serialize(Param(Own, Interval(Bound(NegInf, false), Bound(PosInf, false))))
            == Ok(Entry("pycroft.helpers.interval.Interval",
                        JObject(map["lower_closed" := JBool(false), "lower_value" := Null,
                                    "upper_closed" := JBool(false), "upper_value" := Null])))
  {
    BoundSerializes(Bound(At(p), lower));
    BoundSerializes(Bound(At(q), upper));
    BoundSerializes(Bound(NegInf, false));
    BoundSerializes(Bound(PosInf, false));
    var bounded := Interval(Bound(At(p), lower), Bound(At(q), upper));
    var unbounded := Interval(Bound(NegInf, false), Bound(PosInf, false));
    assert TypeOf(Param(Own, bounded)) == Some(IntervalType) == TypeOf(Param(Own, unbounded));
    assert SerializeData(bounded) == Ok(SerializeInterval(bounded.lower, bounded.upper, l, u));
    assert SerializeData(unbounded) == Ok(SerializeInterval(unbounded.lower, unbounded.upper, Null, Null));
  }

  // ----- reading anything -----

  lemma {:induction false} ReadFlatLegal(lib: Library, t: Type, j: Json)
    requires Promises(lib) && t != IntervalType && t != TimeDeltaType
    ensures ReadAs(lib, t, j).Ok? ==>
      !ReadAs(lib, t, j).value.Interval? && Legal(lib, Param(Own, ReadAs(lib, t, j).value))
  {
    assert ReadsAgain(lib, DecimalText, j) && ReadsAgain(lib, DateText, j);
    assert ReadsAgain(lib, DateTimeText, j) && ReadsAgain(lib, TimeText, j);
    if Elements(j).Ok? && Elements(j).value != [] {
      assert ReadsAgain(lib, DecimalText, Elements(j).value[0]);
    }
  }

  lemma {:induction false} DeltaLegal(lib: Library, total: int)
    ensures MakeDelta(total).Ok? ==> MakeDelta(total).value.Delta? && Legal(lib, Param(Own, MakeDelta(total).value))
  {
    DeltaNormal(total);
  }

  lemma {:induction false} ReadDeltaLegal(lib: Library, j: Json)
    ensures ReadDelta(j).Ok? ==> ReadDelta(j).value.Delta? && Legal(lib, Param(Own, ReadDelta(j).value))
  {
    if ReadDelta(j).Ok? {
      DeltaLegal(lib, Duration(j.fields).value);
    }
  }

  /** Whatever is read, from whatever text, is a legal value of the very types. */
  lemma {:induction false} ReadsLegal(lib: Library, j: Json)
    requires Promises(lib)
    ensures Deserialize(lib, j).Ok? ==> Legal(lib, Deserialize(lib, j).value) && Exact(Deserialize(lib, j).value)
    decreases j
  {
    if Deserialize(lib, j).Ok? {
      var t, value := TypeNamed(TYPES, j.fields["type"].s).value, j.fields["value"];
      if t == IntervalType {
        assert ReadAs(lib, t, value) == ReadInterval(lib, value);
        ReadsLegalInterval(lib, value);
      } else if t == TimeDeltaType {
        ReadDeltaLegal(lib, value);
      } else {
        ReadFlatLegal(lib, t, value);
      }
    }
  }

  lemma {:induction false} ReadsLegalInterval(lib: Library, j: Json)
    requires Promises(lib) && ReadInterval(lib, j).Ok?
    ensures Legal(lib, Param(Own, ReadInterval(lib, j).value)) && Exact(Param(Own, ReadInterval(lib, j).value))
    decreases j, 0
  {
    if !j.fields["lower_value"].Null? {
      ReadsLegal(lib, j.fields["lower_value"]);
    }
    if !j.fields["upper_value"].Null? {
      ReadsLegal(lib, j.fields["upper_value"]);
    }
  }

  /** What has been read and can be written again reads as the same. */
  lemma {:induction false} ReadingIsStable(lib: Library, j: Json)
    requires Promises(lib) && Deserialize(lib, j).Ok? && Supported(Deserialize(lib, j).value)
    ensures var p := Deserialize(lib, j).value;
      Serialize(p).Ok? && Deserialize(lib, Serialize(p).value) == Ok(p)
  {
    ReadsLegal(lib, j);
    RoundTrip(lib, Deserialize(lib, j).value);
  }

  // ----- errors -----

  lemma {:induction false} IntervalNoKeyError(lib: Library, j: Json)
    ensures ReadInterval(lib, j) != Err(KeyError)
  {
    if j.JObject? {
      assert ReadEnd(lib, j, "lower_value", NegInf) != Err(KeyError);
      assert ReadEnd(lib, j, "upper_value", PosInf) != Err(KeyError);
    }
  }

  /** Inside, only an amount of money given as an object looks up a key. */
  lemma {:induction false} InsideKeyErrorIff(lib: Library, t: Type, j: Json)
    requires Promises(lib)
    ensures ReadAs(lib, t, j) == Err(KeyError) <==> t == MoneyType && j.JObject?
  {
    assert ReadsAgain(lib, DecimalText, j) && ReadsAgain(lib, DateText, j);
    assert ReadsAgain(lib, DateTimeText, j) && ReadsAgain(lib, TimeText, j);
    if t == IntervalType {
      IntervalNoKeyError(lib, j);
    } else if Elements(j).Ok? && Elements(j).value != [] {
      assert ReadsAgain(lib, DecimalText, Elements(j).value[0]);
    }
  }

  /**
   A `KeyError` tells of the outermost keys, or of an amount of money given as an object; one from within
   an interval has become a `ValueError`.
   */
  lemma {:induction false} KeyErrorIff(lib: Library, j: Json)
    requires Promises(lib)
    ensures Deserialize(lib, j) == Err(KeyError)
            <==> j.JObject? && ("type" !in j.fields || (KnownType(j) && ("value" !in j.fields || MoneyObject(j))))
  {
    if j.JObject? && "type" in j.fields && "value" in j.fields && KnownType(j) {
      InsideKeyErrorIff(lib, TypeNamed(TYPES, j.fields["type"].s).value, j.fields["value"]);
    }
  }

  predicate KnownType(j: Json)
    requires j.JObject? && "type" in j.fields
  {
    j.fields["type"].JStr? && TypeNamed(TYPES, j.fields["type"].s).Some?
  }

  predicate MoneyObject(j: Json)
    requires j.JObject? && "type" in j.fields && "value" in j.fields && KnownType(j)
  {
    TypeNamed(TYPES, j.fields["type"].s).value == MoneyType && j.fields["value"].JObject?
  }

  /** An empty object and money given as one raise a `KeyError`. */
  lemma {:induction false} KeyErrorCases(lib: Library)
    ensures Deserialize(lib, JObject(map[])) == Err(KeyError)
    ensures Deserialize(lib, Tagged(MoneyType, JObject(map[]))) == Err(KeyError)
  {
    ReadTagged(lib, MoneyType, JObject(map[]));
    assert ReadAs(lib, MoneyType, JObject(map[])) == Err(KeyError);
  }

  /** A bound that is an empty object raises a `ValueError`. */
  lemma {:induction false} BoundKeyError(lib: Library)
    ensures Deserialize(lib, Tagged(IntervalType, JObject(map["lower_value" := JObject(map[])]))) == Err(ValueError)
  {
    var bounds := map["lower_value" := JObject(map[])];
    ReadTagged(lib, IntervalType, JObject(bounds));
    assert Deserialize(lib, JObject(map[])) == Err(KeyError);
    assert ReadEnd(lib, JObject(bounds), "lower_value", NegInf) == Err(ValueError);
    assert ReadAs(lib, IntervalType, JObject(bounds)) == ReadInterval(lib, JObject(bounds)) == Err(ValueError);
  }
}
