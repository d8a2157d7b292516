/** Decoded JSON as the Python code sees it. */
module JsonValue {
  import opened Options
  import opened Ordering
  import opened Text

  datatype Json =
    | Null
    | Bool(b: bool)
    | Int(n: int)
    | Float(value: real)
    | Str(s: string)
    | List(items: seq<Json>)
    | Object(fields: map<string, Json>)
  {
    /** Python truth value. */
    predicate Truthy() {
      match this
      case Null => false
      case Bool(b) => b
      case Int(n) => n != 0
      case Float(x) => x != 0.0
      case Str(s) => s != ""
      case List(items) => items != []
      case Object(fields) => fields != map[]
    }

    /** `str(value)`; a fractional number, list or object prints as some nonblank text that is not modelled further. */
    function Show(): string {
      match this
      case Null => "None"
      case Bool(b) => if b then "True" else "False"
      case Int(n) => ShowInt(n)
      case Float(_) => "0.0"
      case Str(s) => s
      case List(_) => "[]"
      case Object(_) => "{}"
    }

    /** `float(value)`, or nothing where Python raises; text is not read as a number. */
    function AsFloat(): Option<real> {
      match this
      case Bool(b) => Some(if b then 1.0 else 0.0)
      case Int(n) => Some(n as real)
      case Float(x) => Some(x)
      case _ => None
    }
  }

  /** The values Python counts as false. */
  predicate Falsy(value: Json) {
    value in {Null, Bool(false), Int(0), Float(0.0), Str(""), List([]), Object(map[])}
  }

  lemma TruthyExactly(value: Json)
    ensures value.Truthy() <==> !Falsy(value)
  {
  }

  /** What `str` writes for the values the program prints. */
  lemma ShowExactly(n: int, s: string)
    ensures Null.Show() == "None" && Bool(true).Show() == "True" && Bool(false).Show() == "False" && Str(s).Show() == s
    ensures var digits := if n < 0 then Int(n).Show()[1..] else Int(n).Show();
            Value(digits) == (if n < 0 then -n else n) && (forall c :: c in digits ==> IsDigit(c)) && (n < 0 ==> Int(n).Show()[0] == '-')
  {
  }

  /** `fields.get(key, fallback)`. */
  function Get(fields: map<string, Json>, key: string, fallback: Json): Json {
    if key in fields then fields[key] else fallback
  }

  function ShowInt(n: int): string {
    if n < 0 then "-" + Decimal(-n) else Decimal(n)
  }

  /** A list of texts. */
  function Texts(texts: seq<string>): Json {
    List(seq(|texts|, i requires 0 <= i < |texts| => Str(texts[i])))
  }

  /** `sorted(texts)` for a set. */
  function Listing(texts: set<string>): Json {
    Texts(SortedTexts(texts))
  }

  lemma TextsHold(texts: seq<string>, t: string)
    ensures Str(t) in Texts(texts).items <==> t in texts
  {
    var items := Texts(texts).items;
    if t in texts {
      var i :| 0 <= i < |texts| && texts[i] == t;
      assert items[i] == Str(t);
    }
    if Str(t) in items {
      var i :| 0 <= i < |items| && items[i] == Str(t);
      assert texts[i] == t;
    }
  }

  lemma ListingHolds(texts: set<string>)
    ensures Listing(texts).List? && forall t :: Str(t) in Listing(texts).items <==> t in texts
  {
    forall t ensures Str(t) in Listing(texts).items <==> t in texts {
      TextsHold(SortedTexts(texts), t);
    }
  }
}
