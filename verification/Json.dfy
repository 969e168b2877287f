/**
  * JSON documents (RFC 8259) as encoding/json writes and reads them: values, compact printing, and a
  * recursive-descent reader that returns what follows the value it read.
  */
module Json {
  import opened Basics
  import opened Decimal
  import opened Text

  datatype Value =
    | Null
    | Bool(b: bool)
    | Num(text: string)
    | Str(bytes: string)
    | Arr(items: seq<Value>)
    | Obj(members: seq<(string, Value)>)

  // ---- Numbers ----

  predicate NumberChar(c: char) { IsDigit(c) || c == '.' || c == 'e' || c == 'E' || c == '+' || c == '-' }

  predicate NumberChars(s: string, from: nat, to: nat)
    requires to <= |s|
  {
    forall i :: from <= i < to ==> NumberChar(s[i])
  }

  /** First index from i on that holds no digit. */
  function DigitsEnd(s: string, i: nat): (e: nat)
    requires i <= |s|
    ensures i <= e <= |s| && (e < |s| ==> !IsDigit(s[e]))
    ensures forall j :: i <= j < e ==> IsDigit(s[j])
    decreases |s| - i
  {
    if i < |s| && IsDigit(s[i]) then DigitsEnd(s, i + 1) else i
  }

  function IntEnd(s: string): (e: Option<nat>)
    ensures e.Some? ==> 0 < e.value <= |s| && NumberChars(s, 0, e.value)
  {
    var i := if s != [] && s[0] == '-' then 1 else 0;
    if i >= |s| || !IsDigit(s[i]) then None
    else if s[i] == '0' then Some(i + 1)
    else Some(DigitsEnd(s, i))
  }

  function FractionEnd(s: string, i: nat): (e: Option<nat>)
    requires i <= |s|
    ensures e.Some? ==> i <= e.value <= |s| && NumberChars(s, i, e.value)
  {
    if i < |s| && s[i] == '.' then
      var e := DigitsEnd(s, i + 1);
      if e == i + 1 then None else Some(e)
    else Some(i)
  }

  function ExponentEnd(s: string, i: nat): (e: Option<nat>)
    requires i <= |s|
    ensures e.Some? ==> i <= e.value <= |s| && NumberChars(s, i, e.value)
  {
    if i < |s| && (s[i] == 'e' || s[i] == 'E') then
      var j := if i + 1 < |s| && (s[i + 1] == '+' || s[i + 1] == '-') then i + 2 else i + 1;
      var e := DigitsEnd(s, j);
      if e == j then None else Some(e)
    else Some(i)
  }

  /** Length of the number s starts with (section 6), if it starts with one. */
  function NumberLen(s: string): (n: Option<nat>)
    ensures n.Some? ==> 0 < n.value <= |s| && NumberChars(s, 0, n.value)
  {
    match IntEnd(s)
    case None => None
    case Some(i) =>
      match FractionEnd(s, i)
      case None => None
      case Some(f) => ExponentEnd(s, f)
  }

  predicate IsNumber(s: string) { NumberLen(s) == Some(|s|) }

  /** x cannot prolong a number. */
  predicate Delimits(x: string) { x == [] || !NumberChar(x[0]) }

  // ---- Reading ----

  predicate IsSpace(c: char) { c == ' ' || c == '\t' || c == '\r' || c == '\n' }

  function SkipSpace(s: string): (r: string)
    ensures |r| <= |s|
    ensures r != [] ==> !IsSpace(r[0])
  {
    if s != [] && IsSpace(s[0]) then SkipSpace(s[1..]) else s
  }

  function ReadLiteral(s: string, word: string, v: Value): (r: Option<(Value, string)>)
    requires word != []
    ensures r.Some? ==> |r.value.1| < |s|
  {
    if word <= s then Some((v, s[|word|..])) else None
  }

  function ReadNumber(s: string): (r: Option<(Value, string)>)
    ensures r.Some? ==> |r.value.1| < |s| && r.value.0.Num?
  {
    match NumberLen(s)
    case None => None
    case Some(n) => Some((Num(s[..n]), s[n..]))
  }

  function ReadScalar(s: string): (r: Option<(Value, string)>)
    requires s != []
    ensures r.Some? ==> |r.value.1| < |s|
  {
    if s[0] == 't' then ReadLiteral(s, "true", Bool(true))
    else if s[0] == 'f' then ReadLiteral(s, "false", Bool(false))
    else if s[0] == 'n' then ReadLiteral(s, "null", Null)
    else ReadNumber(s)
  }

  function ReadString(s: string): (r: Option<(Value, string)>)
    ensures r.Some? ==> |r.value.1| < |s|
  {
    match Unquote(s)
    case None => None
    case Some((bytes, rest)) => Some((Str(bytes), rest))
  }

  function ReadArray(s: string): (r: Option<(Value, string)>)
    ensures r.Some? ==> |r.value.1| < |s|
    decreases |s|, 4
  {
    var u := SkipSpace(s);
    if u != [] && u[0] == ']' then Some((Arr([]), u[1..]))
    else
      match ReadItems(u)
      case None => None
      case Some((items, rest)) => Some((Arr(items), rest))
  }

  function ReadObject(s: string): (r: Option<(Value, string)>)
    ensures r.Some? ==> |r.value.1| < |s|
    decreases |s|, 4
  {
    var u := SkipSpace(s);
    if u != [] && u[0] == '}' then Some((Obj([]), u[1..]))
    else
      match ReadMembers(u)
      case None => None
      case Some((members, rest)) => Some((Obj(members), rest))
  }

  function ReadToken(t: string): (r: Option<(Value, string)>)
    ensures r.Some? ==> |r.value.1| < |t|
    decreases |t|, 1
  {
    if t == [] then None
    else if t[0] == '[' then ReadArray(t[1..])
    else if t[0] == '{' then ReadObject(t[1..])
    else if t[0] == '"' then ReadString(t[1..])
    else ReadScalar(t)
  }

  function ReadValue(s: string): (r: Option<(Value, string)>)
    ensures r.Some? ==> |r.value.1| < |s|
    decreases |s|, 2
  {
    ReadToken(SkipSpace(s))
  }

  /** The items of an array after its opening bracket, up to and including the closing one. */
  function ReadItems(s: string): (r: Option<(seq<Value>, string)>)
    ensures r.Some? ==> |r.value.1| < |s|
    decreases |s|, 3
  {
    match ReadValue(s)
    case None => None
    case Some((v, after)) =>
      var t := SkipSpace(after);
      if t == [] then None
      else if t[0] == ']' then Some(([v], t[1..]))
      else if t[0] != ',' then None
      else
        match ReadItems(t[1..])
        case None => None
        case Some((vs, rest)) => Some(([v] + vs, rest))
  }

  function ReadMember(s: string): (r: Option<((string, Value), string)>)
    ensures r.Some? ==> |r.value.1| < |s|
    decreases |s|, 0
  {
    var t := SkipSpace(s);
    if t == [] || t[0] != '"' then None
    else
      match Unquote(t[1..])
      case None => None
      case Some((name, after)) =>
        var u := SkipSpace(after);
        if u == [] || u[0] != ':' then None
        else
          match ReadValue(u[1..])
          case None => None
          case Some((v, rest)) => Some(((name, v), rest))
  }

  /** The members of an object after its opening brace, up to and including the closing one. */
  function ReadMembers(s: string): (r: Option<(seq<(string, Value)>, string)>)
    ensures r.Some? ==> |r.value.1| < |s|
    decreases |s|, 3
  {
    match ReadMember(s)
    case None => None
    case Some((m, after)) =>
      var t := SkipSpace(after);
      if t == [] then None
      else if t[0] == '}' then Some(([m], t[1..]))
      else if t[0] != ',' then None
      else
        match ReadMembers(t[1..])
        case None => None
        case Some((ms, rest)) => Some(([m] + ms, rest))
  }

  /** A whole document: one value and nothing but space after it. */
  function ReadDocument(s: string): Option<Value> {
    match ReadValue(s)
    case None => None
    case Some((v, rest)) => if SkipSpace(rest) == [] then Some(v) else None
  }

  // ---- Writing ----

  function Print(v: Value): (s: string)
    ensures v.Num? || (s != [] && !IsSpace(s[0]) && s[0] != ']')
    decreases v, 0
  {
    match v
    case Null => "null"
    case Bool(b) => if b then "true" else "false"
    case Num(text) => text
    case Str(bytes) => "\"" + (Escaped(bytes) + "\"")
    case Arr(items) => "[" + PrintItems(items) + "]"
    case Obj(members) => "{" + PrintMembers(members) + "}"
  }

  function PrintItems(vs: seq<Value>): string
    decreases vs, 1
  {
    if vs == [] then ""
    else Print(vs[0]) + if |vs| == 1 then "" else "," + PrintItems(vs[1..])
  }

  function PrintMember(m: (string, Value)): (s: string)
    ensures s != [] && s[0] == '"'
    decreases m, 1
  {
    "\"" + (Escaped(m.0) + "\"") + ":" + Print(m.1)
  }

  function PrintMembers(ms: seq<(string, Value)>): string
    decreases ms, 1
  {
    if ms == [] then ""
    else PrintMember(ms[0]) + if |ms| == 1 then "" else "," + PrintMembers(ms[1..])
  }

  /** Every number in the value is the text of a JSON number. */
  predicate Printable(v: Value)
    decreases v
  {
    match v
    case Num(text) => IsNumber(text)
    case Arr(items) => forall i :: 0 <= i < |items| ==> Printable(items[i])
    case Obj(members) => forall i :: 0 <= i < |members| ==> Printable(members[i].1)
    case _ => true
  }

  /** The value with every string made valid UTF-8. */
  function Sane(v: Value): Value
    decreases v, 0
  {
    match v
    case Str(bytes) => Str(Sanitize(bytes))
    case Arr(items) => Arr(SaneItems(items))
    case Obj(members) => Obj(SaneMembers(members))
    case _ => v
  }

  function SaneItems(vs: seq<Value>): seq<Value>
    decreases vs, 1
  {
    if vs == [] then [] else [Sane(vs[0])] + SaneItems(vs[1..])
  }

  function SaneMember(m: (string, Value)): (string, Value)
    decreases m, 1
  {
    (Sanitize(m.0), Sane(m.1))
  }

  function SaneMembers(ms: seq<(string, Value)>): seq<(string, Value)>
    decreases ms, 1
  {
    if ms == [] then [] else [SaneMember(ms[0])] + SaneMembers(ms[1..])
  }
}
