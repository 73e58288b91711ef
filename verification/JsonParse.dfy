/** What the parser makes of a text, as functions from the text left to the text left
    after a value. A text is a C string: it holds no NUL, and its end reads as one. */
module JsonParse {
  import opened Text
  import opened JsonNumber
  import opened JsonValue
  import Utf8

  /** `skip_quotes` after the opening quote: what follows the closing quote, or nothing. */
  function AfterQuote(s: string): (r: string)
    ensures |r| <= |s|
    ensures r != "" ==> |r| < |s|
  {
    if s == "" then ""
    else if s[0] == '\"' then s[1..]
    else if s[0] == '\\' && |s| == 1 then ""
    else if s[0] == '\\' then AfterQuote(s[2..])
    else AfterQuote(s[1..])
  }

  /** The character a one-letter escape stands for. */
  function Unescape(c: char): Option<char> {
    if c == '\"' || c == '\\' || c == '/' then Some(c)
    else if c == 'b' then Some('\U{08}')
    else if c == 'f' then Some('\U{0C}')
    else if c == 'n' then Some('\n')
    else if c == 'r' then Some('\r')
    else if c == 't' then Some('\t')
    else None
  }

  function Prepend(s: string, r: Option<string>): Option<string> {
    if r.None? then None else Some(s + r.value)
  }

  /** `process_string` on what is left before the closing quote, which ends `t`. */
  function Decode(t: string): Option<string> {
    if |t| <= 1 then Some("")
    else if t[0] == '\\' then
      if t[1] == 'u' then
        match Utf8.ParseUtf16(t[1..])
        case Refused => None
        case Decoded(bytes, n) => Prepend(bytes, Decode(t[1 + n..]))
      else
        match Unescape(t[1])
        case None => None
        case Some(c) => Prepend([c], Decode(t[2..]))
    else if t[0] < ' ' then None
    else Prepend([t[0]], Decode(t[1..]))
  }

  datatype Quoted = BadQuote | Quoted(text: string, rest: string)

  /** `get_quoted_string`: the first character is skipped unseen; a string that ends the
      text is refused; a decoded NUL ends the string. */
  function QuotedString(s: string): (q: Quoted)
    ensures q.Quoted? ==> |q.rest| < |s|
  {
    if s == "" then BadQuote
    else
      var rest := AfterQuote(s[1..]);
      if rest == "" then BadQuote
      else
        match Decode(s[1..|s| - |rest|])
        case None => BadQuote
        case Some(text) => Quoted(CString(text), rest)
  }

  datatype Parsed = Fail | Ok(value: Value, rest: string)

  /** `parse_number_value`; without digits the number is 0 and nothing is taken. */
  function ParseNumber(s: string): (r: Parsed)
    ensures r.Ok? ==> |r.rest| <= |s|
  {
    var n := NumberLength(s);
    if IsDecimal(s[..n]) then Ok(Number(NumberOf(s)), s[n..]) else Fail
  }

  function ParseQuoted(t: string): (r: Parsed)
    ensures r.Ok? ==> |r.rest| <= |t|
  {
    match QuotedString(t)
    case BadQuote => Fail
    case Quoted(text, rest) => Ok(String(text), rest)
  }

  function ParseLiteral(s: string): (r: Parsed)
    ensures r.Ok? ==> |r.rest| <= |s|
  {
    if "true" <= s then Ok(Boolean(true), s[4..])
    else if "false" <= s then Ok(Boolean(false), s[5..])
    else if "null" <= s then Ok(Null, s[4..])
    else Fail
  }

  /** `parse_value`. */
  function ParseValue(s: string, nesting: nat): (r: Parsed)
    ensures r.Ok? ==> |r.rest| <= |s|
    decreases |s|, 1
  {
    if nesting > MAX_NESTING then Fail
    else
      var t := SkipSpaces(s);
      if t == "" then Fail
      else if t[0] == '{' then ParseObject(t, nesting + 1)
      else if t[0] == '[' then ParseArray(t, nesting + 1)
      else if t[0] == '\"' then
        ParseQuoted(t)
      else if t[0] == 'f' || t[0] == 't' || t[0] == 'n' then ParseLiteral(t)
      else if t[0] == '-' || '0' <= t[0] <= '9' then ParseNumber(t)
      else Fail
  }

  /** `parse_array_value`. */
  function ParseArray(s: string, nesting: nat): (r: Parsed)
    requires s != ""
    ensures r.Ok? ==> |r.rest| <= |s|
    decreases |s|, 0
  {
    var t := SkipSpaces(s[1..]);
    if At(t, 0) == ']' then Ok(Array([]), t[1..]) else ParseItems(t, nesting, [], 0)
  }

  /** The loop of `parse_array_value`, with the elements so far and their capacity. */
  function ParseItems(s: string, nesting: nat, items: seq<Value>, capacity: nat): (r: Parsed)
    ensures r.Ok? ==> |r.rest| <= |s|
    decreases |s|, 2
  {
    if s == "" then FinishArray(s, items)
    else
      match ParseValue(s, nesting)
      case Fail => Fail
      case Ok(v, r) =>
        match Room(|items|, capacity, ARRAY_MAX_CAPACITY)
        case None => Fail
        case Some(c) =>
          var t := SkipSpaces(r);
          if At(t, 0) != ',' then FinishArray(t, items + [v])
          else ParseItems(SkipSpaces(t[1..]), nesting, items + [v], c)
  }

  /** Trimming to no elements at all is refused. */
  function FinishArray(s: string, items: seq<Value>): (r: Parsed)
    ensures r.Ok? ==> |r.rest| <= |s|
  {
    var t := SkipSpaces(s);
    if At(t, 0) != ']' || items == [] then Fail else Ok(Array(items), t[1..])
  }

  /** `parse_object_value`. */
  function ParseObject(s: string, nesting: nat): (r: Parsed)
    requires s != ""
    ensures r.Ok? ==> |r.rest| <= |s|
    decreases |s|, 0
  {
    var t := SkipSpaces(s[1..]);
    if At(t, 0) == '}' then Ok(EmptyObject, t[1..]) else ParseMembers(t, nesting, EmptyObject)
  }

  /** The loop of `parse_object_value`, with the object built so far. */
  function ParseMembers(s: string, nesting: nat, o: Value): (r: Parsed)
    requires o.Object?
    ensures r.Ok? ==> |r.rest| <= |s|
    decreases |s|, 2
  {
    if s == "" then FinishObject(s, o)
    else
      match QuotedString(s)
      case BadQuote => Fail
      case Quoted(key, r) =>
        var t := SkipSpaces(r);
        if At(t, 0) != ':' then Fail
        else
          match ParseValue(t[1..], nesting)
          case Fail => Fail
          case Ok(v, r') =>
            var add := ObjectAdd(o, key, v);
            if !add.ok then Fail
            else
              var t' := SkipSpaces(r');
              if At(t', 0) != ',' then FinishObject(t', add.target)
              else ParseMembers(SkipSpaces(t'[1..]), nesting, add.target)
  }

  /** A parsed object's capacity is trimmed to its number of members. */
  function FinishObject(s: string, o: Value): (r: Parsed)
    requires o.Object?
    ensures r.Ok? ==> |r.rest| <= |s|
  {
    var t := SkipSpaces(s);
    if At(t, 0) != '}' || o.members == [] then Fail
    else Ok(Object(o.members, |o.members|), t[1..])
  }

  /** `json_parse_string`: only an object or an array may be at the top. */
  function ParseText(s: string): Parsed {
    var t := SkipSpaces(s);
    if At(t, 0) != '{' && At(t, 0) != '[' then Fail else ParseValue(t, 0)
  }

  /** One turn of the loop in `parse_array_value`. */
  lemma ItemsTurn(s: string, nesting: nat, items: seq<Value>, capacity: nat)
    requires s != ""
    ensures
      var r := ParseItems(s, nesting, items, capacity);
      match ParseValue(s, nesting)
      case Fail => r == Fail
      case Ok(v, rest) =>
        var t := SkipSpaces(rest);
        var room := Room(|items|, capacity, ARRAY_MAX_CAPACITY);
        if room.None? then r == Fail
        else if At(t, 0) == ',' then r == ParseItems(SkipSpaces(t[1..]), nesting, items + [v], room.value)
        else r == FinishArray(t, items + [v])
  {
    hide ParseValue, Room, SkipSpaces, FinishArray;
  }

  /** One turn of the loop in `parse_object_value`. */
  lemma MembersTurn(s: string, nesting: nat, o: Value)
    requires s != "" && o.Object?
    ensures
      var r, q := ParseMembers(s, nesting, o), QuotedString(s);
      if q.BadQuote? then r == Fail
      else if At(SkipSpaces(q.rest), 0) != ':' then r == Fail
      else
        var p := ParseValue(SkipSpaces(q.rest)[1..], nesting);
        if p.Fail? then r == Fail
        else
          var t, add := SkipSpaces(p.rest), ObjectAdd(o, q.text, p.value);
          if !add.ok then r == Fail
          else if At(t, 0) == ',' then r == ParseMembers(SkipSpaces(t[1..]), nesting, add.target)
          else r == FinishObject(t, add.target)
  {
    hide ParseValue, ObjectAdd, SkipSpaces, FinishObject, QuotedString;
  }
}
