/** The controlled value store: values under registered names, each of which says what
    type it takes, whether it is persisted, and which values it accepts. */
module ValStore {
  import opened Text
  import H = HashTable

  datatype Ret = Accepted | FailedToCreate | NoSuchValue | IncorrectType | FailedCallback | FailedRegexp

  datatype Kind = NoKind | NumberKind | StringKind | AddressKind

  /** Addresses stand for the text `iw_ip_addr_to_str` prints for them. */
  datatype Body = Nothing | Number(n: int) | Str(s: string) | Address(text: string)

  datatype Val = Val(name: string, body: Body)

  /** `iw_val_criteria`; `pattern` says which texts match the compiled expression. */
  datatype Criteria = Criteria(
    kind: Kind,
    persist: bool,
    pattern: Option<string -> bool>,
    fn: Option<(string, Val) -> bool>)

  function KindOf(body: Body): Kind {
    match body
    case Nothing => NoKind
    case Number(_) => NumberKind
    case Str(_) => StringKind
    case Address(_) => AddressKind
  }

  /** The text a pattern is matched against. */
  function TextOf(body: Body): Option<string> {
    match body
    case Nothing => None
    case Number(n) => Some(PrintInt(n))
    case Str(s) => Some(s)
    case Address(text) => Some(text)
  }

  predicate Matches(crit: Criteria, body: Body) {
    crit.pattern.Some? && TextOf(body).Some? ==> crit.pattern.value(TextOf(body).value)
  }

  predicate Accepts(crit: Criteria, name: string, val: Val) {
    && crit.kind == KindOf(val.body)
    && (crit.fn.Some? ==> crit.fn.value(name, val))
    && Matches(crit, val.body)
  }

  // ----- the store as a value

  datatype State = State(values: map<nat, Option<Val>>, names: map<nat, Option<Criteria>>, controlled: bool)

  function Hash(name: string): nat {
    H.HashData(Some(name))
  }

  function Held<D>(m: map<nat, Option<D>>, hash: nat): Option<D> {
    if hash in m then m[hash] else None
  }

  function Get(s: State, name: string): Option<Val> {
    Held(s.values, Hash(name))
  }

  /** The checks of `iw_val_store_set`, in their order. */
  function Check(s: State, name: string, val: Val): Ret {
    var crit := Held(s.names, Hash(name));
    if !s.controlled then Accepted
    else if crit.None? then NoSuchValue
    else if crit.value.kind != KindOf(val.body) then IncorrectType
    else if crit.value.fn.Some? && !crit.value.fn.value(name, val) then FailedCallback
    else if !Matches(crit.value, val.body) then FailedRegexp
    else Accepted
  }

  function AfterSet(s: State, name: string, val: Val): State {
    if Check(s, name, val) == Accepted then s.(values := s.values[Hash(name) := Some(val)]) else s
  }

  /** A `long long` assigned to an `int`. */
  function ToInt(n: int): int {
    (n + 0x8000_0000) % 0x1_0000_0000 - 0x8000_0000
  }

  /** What `iw_val_store_set_existing_value` sets, or why it does not try; `addresses` is
      `iw_ip_str_to_addr`. */
  function Reading(s: State, name: string, text: string, addresses: string -> Option<string>): (r: (Ret, Val))
  {
    var held := Get(s, name);
    if held.None? then (NoSuchValue, Val(name, Nothing))
    else match held.value.body
      case Str(_) => (Accepted, Val(name, Str(text)))
      case Number(_) =>
        var n := StrToLL(text, 0);
        if n.None? then (FailedRegexp, Val(name, Nothing)) else (Accepted, Val(name, Number(ToInt(n.value))))
      case Address(_) =>
        var a := addresses(text);
        if a.None? then (FailedRegexp, Val(name, Nothing)) else (Accepted, Val(name, Address(a.value)))
      case Nothing => (IncorrectType, Val(name, Nothing))
  }

  function SetExisting(s: State, name: string, text: string, addresses: string -> Option<string>): State {
    var r := Reading(s, name, text, addresses);
    if r.0 == Accepted then AfterSet(s, name, r.1) else s
  }

  function AddName(s: State, name: string, crit: Criteria): State {
    if Hash(name) in s.names then s else s.(names := s.names[Hash(name) := Some(crit)])
  }

  function DeleteName(s: State, name: string): State {
    s.(names := s.names - {Hash(name)}, values := s.values - {Hash(name)})
  }

  // ----- what every operation keeps

  ghost predicate Fits(s: State, hash: nat)
    requires hash in s.values
  {
    && s.values[hash].Some? && hash in s.names && s.names[hash].Some?
    && exists name :: Hash(name) == hash && Accepts(s.names[hash].value, name, s.values[hash].value)
  }

  /** Every stored value has a registered name and the registered type, and passes the
      name's callback and pattern. */
  ghost predicate Sound(s: State) {
    s.controlled ==> forall hash :: hash in s.values ==> Fits(s, hash)
  }

  datatype Op =
    | OpSet(name: string, val: Val)
    | OpSetExisting(name: string, text: string, addresses: string -> Option<string>)
    | OpAddName(name: string, crit: Criteria)
    | OpDeleteName(name: string)

  function Apply(s: State, op: Op): State {
    match op
    case OpSet(name, val) => AfterSet(s, name, val)
    case OpSetExisting(name, text, addresses) => SetExisting(s, name, text, addresses)
    case OpAddName(name, crit) => AddName(s, name, crit)
    case OpDeleteName(name) => DeleteName(s, name)
  }

  function Run(s: State, ops: seq<Op>): State
    decreases |ops|
  {
    if ops == [] then s else Run(Apply(s, ops[0]), ops[1..])
  }

  /** The checks accept exactly the values the name's criteria accept. */
  lemma CheckAcceptsExactly(s: State, name: string, val: Val)
    requires s.controlled
    ensures Check(s, name, val) == Accepted <==>
            Held(s.names, Hash(name)).Some? && Accepts(Held(s.names, Hash(name)).value, name, val)
  {
  }

  /** A rejected set changes nothing; an accepted one changes what its name reads, and
      what no other name reads. */
  lemma SetChangesExactly(s: State, name: string, val: Val, other: string)
    ensures var s' := AfterSet(s, name, val);
      && (Check(s, name, val) != Accepted ==> s' == s)
      && (Check(s, name, val) == Accepted ==> Get(s', name) == Some(val))
      && (Hash(other) != Hash(name) ==> Get(s', other) == Get(s, other))
      && s'.names == s.names && s'.controlled == s.controlled
  {
    hide Check, H.HashData;
  }

  /** The kinds and the bodies they take. */
  ghost predicate IsOf(kind: Kind, body: Body) {
    && (kind == NoKind <==> body.Nothing?) && (kind == NumberKind <==> body.Number?)
    && (kind == StringKind <==> body.Str?) && (kind == AddressKind <==> body.Address?)
  }

  /** A pattern, if there is one, admits a string, the digits of a number, or the text of an address. */
  ghost predicate Admitted(pattern: Option<string -> bool>, body: Body) {
    && (pattern.Some? && body.Str? ==> pattern.value(body.s))
    && (pattern.Some? && body.Number? ==> pattern.value(PrintInt(body.n)))
    && (pattern.Some? && body.Address? ==> pattern.value(body.text))
  }

  /** When each answer is given; the conditions exclude each other. */
  ghost predicate Answers(s: State, name: string, val: Val, ret: Ret) {
    if Hash(name) !in s.names || s.names[Hash(name)].None? then ret == NoSuchValue
    else
      var crit := s.names[Hash(name)].value;
      match ret
      case IncorrectType => !IsOf(crit.kind, val.body)
      case FailedCallback => IsOf(crit.kind, val.body) && crit.fn.Some? && !crit.fn.value(name, val)
      case FailedRegexp =>
        && IsOf(crit.kind, val.body) && (crit.fn.Some? ==> crit.fn.value(name, val))
        && !Admitted(crit.pattern, val.body)
      case Accepted =>
        && IsOf(crit.kind, val.body) && (crit.fn.Some? ==> crit.fn.value(name, val))
        && Admitted(crit.pattern, val.body)
      case _ => false
  }

  lemma CheckAnswers(s: State, name: string, val: Val)
    ensures s.controlled ==> Answers(s, name, val, Check(s, name, val))
    ensures !s.controlled ==> Check(s, name, val) == Accepted
  {
    hide H.HashData, PrintInt;
  }

  /** Of the values of the right type, a name with a pattern and no callback takes those the pattern
      admits; the others are answered with `FailedRegexp` and change nothing. */
  lemma PatternDecides(s: State, name: string, body: Body, pattern: string -> bool)
    requires s.controlled && Hash(name) in s.names && s.names[Hash(name)].Some?
    requires s.names[Hash(name)].value.pattern == Some(pattern) && s.names[Hash(name)].value.fn == None
    requires IsOf(s.names[Hash(name)].value.kind, body) && !body.Nothing?
    ensures
      var val := Val(name, body);
      var text := if body.Str? then body.s else if body.Number? then PrintInt(body.n) else body.text;
      if pattern(text) then Check(s, name, val) == Accepted && Get(AfterSet(s, name, val), name) == Some(val)
      else Check(s, name, val) == FailedRegexp && AfterSet(s, name, val) == s
  {
    hide H.HashData, PrintInt;
  }

  /** A name is registered once; removing it removes its value. No other name is touched. */
  lemma NamesChangeExactly(s: State, name: string, crit: Criteria, hash: nat)
    ensures Hash(name) in s.names ==> AddName(s, name, crit) == s
    ensures Hash(name) !in s.names ==> Held(AddName(s, name, crit).names, Hash(name)) == Some(crit)
    ensures hash != Hash(name) ==> Held(AddName(s, name, crit).names, hash) == Held(s.names, hash)
    ensures AddName(s, name, crit).values == s.values
    ensures Held(DeleteName(s, name).names, Hash(name)) == None && Held(DeleteName(s, name).values, Hash(name)) == None
    ensures hash != Hash(name) ==> Held(DeleteName(s, name).names, hash) == Held(s.names, hash)
    ensures hash != Hash(name) ==> Held(DeleteName(s, name).values, hash) == Held(s.values, hash)
  {
    hide H.HashData;
  }

  lemma SetKeepsSound(s: State, name: string, val: Val)
    requires Sound(s)
    ensures Sound(AfterSet(s, name, val))
  {
    hide H.HashData, Matches;
    var s' := AfterSet(s, name, val);
    if s.controlled && Check(s, name, val) == Accepted {
      forall hash | hash in s'.values ensures Fits(s', hash) {
        if hash == Hash(name) {
          assert Accepts(s'.names[hash].value, name, s'.values[hash].value);
        } else {
          assert Fits(s, hash);
        }
      }
    }
  }

  lemma NamesKeepSound(s: State, name: string, crit: Criteria)
    requires Sound(s)
    ensures Sound(AddName(s, name, crit)) && Sound(DeleteName(s, name))
  {
    hide H.HashData, Accepts;
    forall hash | s.controlled && hash in s.values ensures Fits(AddName(s, name, crit), hash) {
      assert Fits(s, hash);
    }
    forall hash | s.controlled && hash in s.values && hash != Hash(name) ensures Fits(DeleteName(s, name), hash) {
      assert Fits(s, hash);
    }
  }

  /** In every state a run reaches. */
  lemma {:induction false} RunKeepsSound(s: State, ops: seq<Op>)
    requires Sound(s)
    ensures Sound(Run(s, ops))
    decreases |ops|
  {
    hide Sound, AfterSet, AddName, DeleteName, Reading;
    if ops != [] {
      match ops[0] {
        case OpSet(name, val) => SetKeepsSound(s, name, val);
        case OpSetExisting(name, text, addresses) => SetKeepsSound(s, name, Reading(s, name, text, addresses).1);
        case OpAddName(name, crit) => NamesKeepSound(s, name, crit);
        case OpDeleteName(name) => NamesKeepSound(s, name, Criteria(NoKind, false, None, None));
      }
      RunKeepsSound(Apply(s, ops[0]), ops[1..]);
    }
  }

  /** Whatever is held after a run is of the registered type, and its text passes the pattern. */
  lemma RunHoldsAdmitted(s: State, ops: seq<Op>, hash: nat)
    requires Sound(s) && s.controlled
    ensures
      var s' := Run(s, ops);
      hash in s'.values ==>
        && hash in s'.names && s'.names[hash].Some? && s'.values[hash].Some?
        && IsOf(s'.names[hash].value.kind, s'.values[hash].value.body)
        && Admitted(s'.names[hash].value.pattern, s'.values[hash].value.body)
  {
    hide H.HashData, PrintInt, Run;
    var s' := Run(s, ops);
    RunKeepsSound(s, ops);
    RunKeepsControl(s, ops);
    assert hash in s'.values ==> Fits(s', hash);
  }

  /** What the typed setters keep besides: a value is stored under its own name and passes
      that name's criteria, and numbers are of type `int`. */
  ghost predicate Kept(s: State, hash: nat)
    requires hash in s.values
  {
    && s.values[hash].Some? && Hash(s.values[hash].value.name) == hash
    && hash in s.names && s.names[hash].Some?
    && Accepts(s.names[hash].value, s.values[hash].value.name, s.values[hash].value)
    && IntBody(s.values[hash].value.body)
  }

  predicate IntBody(body: Body) {
    body.Number? ==> -0x8000_0000 <= body.n < 0x8000_0000
  }

  ghost predicate WellKept(s: State) {
    s.controlled && forall hash :: hash in s.values ==> Kept(s, hash)
  }

  /** An operation as the typed setters do it. */
  predicate Typed(op: Op) {
    op.OpSet? ==> op.val.name == op.name && IntBody(op.val.body)
  }

  lemma SetKeepsWell(s: State, name: string, val: Val)
    requires WellKept(s) && val.name == name && IntBody(val.body)
    ensures WellKept(AfterSet(s, name, val))
  {
    hide H.HashData, Accepts, Check, IntBody;
    CheckAcceptsExactly(s, name, val);
    forall hash | hash in AfterSet(s, name, val).values ensures Kept(AfterSet(s, name, val), hash) {
      assert hash in s.values ==> Kept(s, hash);
    }
  }

  lemma NamesKeepWell(s: State, name: string, crit: Criteria)
    requires WellKept(s)
    ensures WellKept(AddName(s, name, crit)) && WellKept(DeleteName(s, name))
  {
    hide H.HashData, Accepts, IntBody;
    forall hash | hash in s.values ensures Kept(AddName(s, name, crit), hash) {
      assert Kept(s, hash);
    }
    forall hash | hash in s.values && hash != Hash(name) ensures Kept(DeleteName(s, name), hash) {
      assert Kept(s, hash);
    }
  }

  lemma {:induction false} RunKeepsWell(s: State, ops: seq<Op>)
    requires WellKept(s) && forall i :: 0 <= i < |ops| ==> Typed(ops[i])
    ensures WellKept(Run(s, ops))
    decreases |ops|
  {
    hide WellKept, AfterSet, AddName, DeleteName;
    if ops != [] {
      assert Typed(ops[0]);
      match ops[0] {
        case OpSet(name, val) => SetKeepsWell(s, name, val);
        case OpSetExisting(name, text, addresses) =>
          ReadingIsTyped(s, name, text, addresses);
          SetKeepsWell(s, name, Reading(s, name, text, addresses).1);
        case OpAddName(name, crit) => NamesKeepWell(s, name, crit);
        case OpDeleteName(name) => NamesKeepWell(s, name, Criteria(NoKind, false, None, None));
      }
      RunKeepsWell(Apply(s, ops[0]), ops[1..]);
    }
  }

  lemma ReadingIsTyped(s: State, name: string, text: string, addresses: string -> Option<string>)
    ensures Reading(s, name, text, addresses).1.name == name && IntBody(Reading(s, name, text, addresses).1.body)
  {
    hide StrToLL;
  }

  // ----- numbers

  lemma ToIntExactly(n: int)
    ensures -0x8000_0000 <= ToInt(n) < 0x8000_0000
    ensures ToInt(n) == n <==> -0x8000_0000 <= n < 0x8000_0000
    ensures (n - ToInt(n)) % 0x1_0000_0000 == 0
  {
  }

  predicate DigitsIn(s: string, lo: char, hi: char) {
    forall i :: 0 <= i < |s| ==> lo <= s[i] <= hi
  }

  /** `IW_VAL_CRIT_PORT`, alternative by alternative. */
  predicate PortPattern(s: string) {
    || (1 <= |s| <= 4 && DigitsIn(s, '0', '9'))
    || (|s| == 5 && DigitsIn(s[..1], '1', '5') && DigitsIn(s[1..], '0', '9'))
    || (|s| == 5 && s[..1] == "6" && DigitsIn(s[1..2], '0', '4') && DigitsIn(s[2..], '0', '9'))
    || (|s| == 5 && s[..2] == "65" && DigitsIn(s[2..3], '0', '4') && DigitsIn(s[3..], '0', '9'))
    || (|s| == 5 && s[..3] == "655" && DigitsIn(s[3..4], '0', '2') && DigitsIn(s[4..], '0', '9'))
    || (|s| == 5 && s[..4] == "6553" && DigitsIn(s[4..], '0', '5'))
  }

  lemma LastDigit(s: string)
    requires s != "" && DigitsIn(s, '0', '9')
    ensures ValueIn(s, 10) == 10 * ValueIn(s[..|s| - 1], 10) + (s[|s| - 1] as int - '0' as int)
    ensures DigitsIn(s[..|s| - 1], '0', '9')
  {
  }

  function Digit(c: char): int {
    c as int - '0' as int
  }

  lemma ShortValue(s: string)
    requires |s| <= 4 && DigitsIn(s, '0', '9')
    ensures ValueIn(s, 10) <= 9999
    ensures |s| == 4 ==> ValueIn(s, 10) == 1000 * Digit(s[0]) + 100 * Digit(s[1]) + 10 * Digit(s[2]) + Digit(s[3])
  {
    if |s| > 0 {
      LastDigit(s);
      if |s| > 1 {
        LastDigit(s[..|s| - 1]);
        if |s| > 2 {
          LastDigit(s[..|s| - 1][..|s| - 2]);
          if |s| > 3 {
            LastDigit(s[..|s| - 1][..|s| - 2][..|s| - 3]);
          }
        }
      }
    }
  }

  lemma FiveDigits(s: string)
    requires |s| == 5 && DigitsIn(s, '0', '9')
    ensures ValueIn(s, 10)
      == 10000 * Digit(s[0]) + 1000 * Digit(s[1]) + 100 * Digit(s[2]) + 10 * Digit(s[3]) + Digit(s[4])
  {
    LastDigit(s);
    ShortValue(s[..4]);
  }

  /** The pattern is matched by exactly the texts of one to four digits and the texts of
      five digits without a leading zero whose value is at most 65535. */
  lemma PortTextExactly(s: string)
    ensures PortPattern(s)
      <==> 1 <= |s| <= 5 && DigitsIn(s, '0', '9') && (|s| == 5 ==> s[0] != '0') && ValueIn(s, 10) <= 65535
  {
    hide ValueIn;
    if 1 <= |s| <= 4 && DigitsIn(s, '0', '9') {
      ShortValue(s);
    } else if |s| == 5 {
      FiveChars(s);
      if DigitsIn(s, '0', '9') {
        FiveDigits(s);
      }
    }
  }

  /** Five characters, one by one. */
  lemma FiveChars(s: string)
    requires |s| == 5
    ensures PortPattern(s) <==>
            || ('1' <= s[0] <= '5' && IsDigit(s[1]) && IsDigit(s[2]) && IsDigit(s[3]) && IsDigit(s[4]))
            || (s[0] == '6' && '0' <= s[1] <= '4' && IsDigit(s[2]) && IsDigit(s[3]) && IsDigit(s[4]))
            || (s[0] == '6' && s[1] == '5' && '0' <= s[2] <= '4' && IsDigit(s[3]) && IsDigit(s[4]))
            || (s[0] == '6' && s[1] == '5' && s[2] == '5' && '0' <= s[3] <= '2' && IsDigit(s[4]))
            || (s[0] == '6' && s[1] == '5' && s[2] == '5' && s[3] == '3' && '0' <= s[4] <= '5')
    ensures DigitsIn(s, '0', '9') <==> IsDigit(s[0]) && IsDigit(s[1]) && IsDigit(s[2]) && IsDigit(s[3]) && IsDigit(s[4])
  {
    assert s[..1] == [s[0]] && s[1..] == [s[1], s[2], s[3], s[4]];
    assert s[1..2] == [s[1]] && s[2..] == [s[2], s[3], s[4]];
    assert s[..2] == [s[0], s[1]] && s[2..3] == [s[2]] && s[3..] == [s[3], s[4]];
    assert s[..3] == [s[0], s[1], s[2]] && s[3..4] == [s[3]] && s[4..] == [s[4]];
    assert s[..4] == [s[0], s[1], s[2], s[3]];
  }

  predicate IsDigit(c: char) {
    '0' <= c <= '9'
  }

  /** Of the printed numbers the pattern admits exactly 0 to 65535. */
  lemma PortNumbersExactly(n: int)
    ensures PortPattern(PrintInt(n)) <==> 0 <= n <= 65535
  {
    var s := PrintInt(n);
    PortTextExactly(s);
    if n < 0 {
      assert s[0] == '-';
    } else {
      assert DigitsIn(s, '0', '9') by {
        forall i | 0 <= i < |s| ensures '0' <= s[i] <= '9' {
          DecimalDigits(n, i);
        }
      }
      DecimalValue(n);
      if n <= 65535 {
        ShortDecimal(n);
      }
    }
  }

  lemma {:induction false} DecimalDigits(n: nat, i: nat)
    requires i < |Decimal(n)|
    ensures '0' <= Decimal(n)[i] <= '9'
  {
    if n >= 10 && i < |Decimal(n)| - 1 {
      DecimalDigits(n / 10, i);
    }
  }

  lemma OneMoreDigit(n: nat)
    ensures |Decimal(n)| == if n < 10 then 1 else 1 + |Decimal(n / 10)|
  {
  }

  lemma ShortDecimal(n: nat)
    requires n < 100000
    ensures |Decimal(n)| <= 5
  {
    hide Decimal;
    OneMoreDigit(n);
    OneMoreDigit(n / 10);
    OneMoreDigit(n / 10 / 10);
    OneMoreDigit(n / 10 / 10 / 10);
    OneMoreDigit(n / 10 / 10 / 10 / 10);
  }

  /** The criteria `iw_cfg_add_number` registers for a port. */
  ghost predicate IsPort(crit: Option<Criteria>) {
    && crit.Some? && crit.value.kind == NumberKind && crit.value.fn.None? && crit.value.pattern.Some?
    && forall text :: crit.value.pattern.value(text) <==> PortPattern(text)
  }

  /** A setting guarded by the port pattern takes exactly the numbers 0 to 65535. */
  lemma PortTakesExactly(s: State, name: string, n: int)
    requires s.controlled && IsPort(Held(s.names, Hash(name)))
    ensures Check(s, name, Val(name, Number(n))) == Accepted <==> 0 <= n <= 65535
  {
    hide H.HashData, PortPattern, PrintInt;
    PortNumbersExactly(n);
  }

  /** In every state a run reaches it holds one of them, if anything. */
  lemma PortHoldsPort(s: State, ops: seq<Op>, name: string)
    requires Sound(s) && s.controlled
    ensures var s' := Run(s, ops);
      IsPort(Held(s'.names, Hash(name))) && Get(s', name).Some? ==>
        Get(s', name).value.body.Number? && 0 <= Get(s', name).value.body.n <= 65535
  {
    hide H.HashData, PortPattern, PrintInt, Run;
    var s' := Run(s, ops);
    RunKeepsSound(s, ops);
    RunKeepsControl(s, ops);
    if IsPort(Held(s'.names, Hash(name))) && Get(s', name).Some? {
      assert Fits(s', Hash(name));
      var body := Get(s', name).value.body;
      PortNumbersExactly(body.n);
    }
  }

  lemma {:induction false} RunKeepsControl(s: State, ops: seq<Op>)
    ensures Run(s, ops).controlled == s.controlled
    decreases |ops|
  {
    if ops != [] {
      RunKeepsControl(Apply(s, ops[0]), ops[1..]);
    }
  }

  /** Set by text, a number is taken modulo 2 to the 32: a port stores what the text says
      exactly if that is a port; a larger number whose remainder is a port is taken for it. */
  lemma PortByText(s: State, name: string, text: string, addresses: string -> Option<string>)
    requires s.controlled && IsPort(Held(s.names, Hash(name)))
    requires Get(s, name).Some? && Get(s, name).value.body.Number? && StrToLL(text, 0).Some?
    ensures var n := StrToLL(text, 0).value; var s' := SetExisting(s, name, text, addresses);
      if 0 <= ToInt(n) <= 65535 then Get(s', name) == Some(Val(name, Number(ToInt(n)))) else s' == s
  {
    hide H.HashData, StrToLL, Check;
    PortTakesExactly(s, name, ToInt(StrToLL(text, 0).value));
  }

  /** Setting by text, by the type of the value held: a string takes the text itself, a number the
      number it says, an address the address it says. A text that says none is answered with
      `FailedRegexp`; a rejected address is answered like an accepted one. */
  lemma SetByText(s: State, name: string, text: string, addresses: string -> Option<string>)
    ensures
      var s', ret := SetExisting(s, name, text, addresses), AnswerToExisting(s, name, text, addresses);
      var held := Held(s.values, Hash(name));
      if held.None? then s' == s && ret == NoSuchValue
      else
        match held.value.body
        case Nothing => s' == s && ret == IncorrectType
        case Str(_) => Stored(s, s', name, Str(text)) && ret == Check(s, name, Val(name, Str(text)))
        case Number(_) =>
          if StrToLL(text, 0).None? then s' == s && ret == FailedRegexp
          else
            var body := Number(ToInt(StrToLL(text, 0).value));
            Stored(s, s', name, body) && ret == Check(s, name, Val(name, body))
        case Address(_) =>
          if addresses(text).None? then s' == s && ret == FailedRegexp
          else Stored(s, s', name, Address(addresses(text).value)) && ret == Accepted
  {
    hide H.HashData, StrToLL, Check;
  }

  /** `body` is stored if the checks take it, and nothing changes if they do not. */
  ghost predicate Stored(s: State, s': State, name: string, body: Body) {
    if Check(s, name, Val(name, body)) == Accepted then
      s' == s.(values := s.values[Hash(name) := Some(Val(name, body))])
    else s' == s
  }

  /** A number set by the text it prints as is stored as it is. */
  lemma NumberByItsText(s: State, name: string, n: int, addresses: string -> Option<string>)
    requires -0x8000_0000 <= n < 0x8000_0000
    requires Get(s, name).Some? && Get(s, name).value.body.Number?
    ensures SetExisting(s, name, PrintInt(n), addresses) == AfterSet(s, name, Val(name, Number(n)))
  {
    hide H.HashData, StrToLL, Check, AfterSet, PrintInt;
    AnyBaseOfPrintInt(n);
    ToIntExactly(n);
  }

  lemma SignedInAnyBase(ds: string)
    requires ds != "" && AllDigits(ds, 10)
    ensures StrToLL(ds, 0) == ReadDigits(ds, if ds[0] == '0' then 8 else 10, false)
    ensures StrToLL("-" + ds, 0) == ReadDigits(ds, if ds[0] == '0' then 8 else 10, true)
  {
    hide ReadDigits;
    DigitIsNoSign(ds[0]);
    if |ds| > 1 {
      DigitIsNoSign(ds[1]);
    }
    assert !HasHexPrefix(ds) && SkipSpaces(ds) == ds;
    assert SkipSpaces("-" + ds) == "-" + ds && ("-" + ds)[1..] == ds;
  }

  lemma ZeroInOctal(negative: bool)
    ensures ReadDigits("0", 8, negative) == Some(0)
  {
    DigitRunOf("0", "", 8);
    assert "0" + "" == "0" && "0"[..1] == "0" && "0"[..0] == "";
  }

  lemma AnyBaseOfPrintInt(n: int)
    requires -LLONG_MAX - 1 <= n <= LLONG_MAX
    ensures StrToLL(PrintInt(n), 0) == Some(n)
  {
    hide StrToLL, ReadDigits, ValueIn;
    var m := if n < 0 then 0 - n else n;
    var ds := Decimal(m);
    DecimalValue(m);
    SignedInAnyBase(ds);
    if m == 0 {
      assert ds == "0";
      ZeroInOctal(n < 0);
    } else {
      ReadDigitsOf(ds, "", n < 0);
      assert ds + "" == ds;
    }
  }

  // ----- the store itself

  class Store {
    const controlled: bool
    const table: H.Table<Val>
    const names: H.Table<Criteria>

    ghost predicate Valid()
      reads this, table, names, table.buckets, names.buckets
    {
      && table.Valid() && names.Valid()
      && (forall key :: table.fn(key) == H.HashData(key))
      && (forall key :: names.fn(key) == H.HashData(key))
      && Sound(Model())
    }

    ghost function Model(): State
      reads this, table, names, table.buckets, names.buckets
    {
      State(table.Contents(), names.Contents(), controlled)
    }

    constructor (controlled: bool)
      ensures Valid() && Model() == State(map[], map[], controlled)
      ensures fresh(table) && fresh(names) && fresh(table.buckets) && fresh(names.buckets)
    {
      this.controlled := controlled;
      table := new H.Table<Val>(1024, None);
      names := new H.Table<Criteria>(1024, None);
    }

    /** `iw_val_store_get`. */
    method Lookup(name: string) returns (val: Option<Val>)
      requires Valid()
      ensures val == Get(Model(), name)
    {
      val := table.Get(Some(name));
    }

    /** `iw_val_store_set`. */
    method Set(name: string, val: Val) returns (ret: Ret)
      requires Valid()
      modifies table, table.buckets
      ensures Valid() && ret == Check(old(Model()), name, val) && Model() == AfterSet(old(Model()), name, val)
      ensures controlled ==> Answers(old(Model()), name, val, ret)
    {
      SetKeepsSound(Model(), name, val);
      CheckAnswers(Model(), name, val);
      if controlled {
        var crit := names.Get(Some(name));
        if crit.None? {
          return NoSuchValue;
        }
        if crit.value.kind != KindOf(val.body) {
          return IncorrectType;
        }
        if crit.value.fn.Some? && !crit.value.fn.value(name, val) {
          return FailedCallback;
        }
        if crit.value.pattern.Some? {
          var buffer := TextOf(val.body);
          if buffer.Some? && !crit.value.pattern.value(buffer.value) {
            return FailedRegexp;
          }
        }
      }
      var ok, called := table.Replace(Some(name), Some(val), true);
      ret := if ok then Accepted else FailedToCreate;
    }

    method SetNumber(name: string, n: int) returns (ret: Ret)
      requires Valid()
      modifies table, table.buckets
      ensures Valid() && ret == Check(old(Model()), name, Val(name, Number(n)))
      ensures Model() == AfterSet(old(Model()), name, Val(name, Number(n)))
    {
      ret := Set(name, Val(name, Number(n)));
    }

    method SetString(name: string, s: string) returns (ret: Ret)
      requires Valid()
      modifies table, table.buckets
      ensures Valid() && ret == Check(old(Model()), name, Val(name, Str(s)))
      ensures Model() == AfterSet(old(Model()), name, Val(name, Str(s)))
    {
      ret := Set(name, Val(name, Str(s)));
    }

    /** Unlike the other setters this one answers `false` where the value is rejected, and
        `false` is `IW_VAL_RET_OK`. */
    method SetAddress(name: string, text: string) returns (ret: Ret)
      requires Valid()
      modifies table, table.buckets
      ensures Valid() && ret == Accepted
      ensures Model() == AfterSet(old(Model()), name, Val(name, Address(text)))
    {
      ret := Set(name, Val(name, Address(text)));
      if ret != Accepted {
        ret := Accepted;
      }
    }

    method SetExistingValue(name: string, text: string, addresses: string -> Option<string>) returns (ret: Ret)
      requires Valid()
      modifies table, table.buckets
      ensures Valid() && Model() == SetExisting(old(Model()), name, text, addresses)
      ensures ret == AnswerToExisting(old(Model()), name, text, addresses)
    {
      var val := Lookup(name);
      if val.None? {
        return NoSuchValue;
      }
      match val.value.body
      case Str(_) => ret := SetString(name, text);
      case Number(_) =>
        var n := StrToLL(text, 0);
        if n.None? {
          return FailedRegexp;
        }
        ret := SetNumber(name, ToInt(n.value));
      case Address(_) =>
        var a := addresses(text);
        if a.None? {
          return FailedRegexp;
        }
        ret := SetAddress(name, a.value);
      case Nothing => ret := IncorrectType;
    }

    method GetPersist(name: string) returns (persist: bool)
      requires Valid() && controlled
      ensures persist == Persisted(Model(), name)
      ensures persist <==>
        Hash(name) in Model().names && Model().names[Hash(name)].Some? && Model().names[Hash(name)].value.persist
    {
      var crit := names.Get(Some(name));
      persist := crit.Some? && crit.value.persist;
    }

    /** The three ways of adding a name; `pattern` is `None` where the expression does not compile. */
    method AddPlainName(name: string, kind: Kind, persist: bool) returns (ok: bool)
      requires Valid() && controlled
      modifies names, names.buckets
      ensures Valid() && (ok <==> Hash(name) !in old(Model()).names)
      ensures Model() == AddName(old(Model()), name, Criteria(kind, persist, None, None))
    {
      NamesKeepSound(Model(), name, Criteria(kind, persist, None, None));
      ok := names.Insert(Some(name), Some(Criteria(kind, persist, None, None)));
    }

    method AddCallbackName(name: string, kind: Kind, fn: (string, Val) -> bool, persist: bool) returns (ok: bool)
      requires Valid() && controlled
      modifies names, names.buckets
      ensures Valid() && (ok <==> Hash(name) !in old(Model()).names)
      ensures Model() == AddName(old(Model()), name, Criteria(kind, persist, None, Some(fn)))
    {
      NamesKeepSound(Model(), name, Criteria(kind, persist, None, Some(fn)));
      ok := names.Insert(Some(name), Some(Criteria(kind, persist, None, Some(fn))));
    }

    method AddPatternName(name: string, kind: Kind, pattern: Option<string -> bool>, persist: bool) returns (ok: bool)
      requires Valid() && controlled
      modifies names, names.buckets
      ensures Valid() && (ok <==> pattern.Some? && Hash(name) !in old(Model()).names)
      ensures Model() == if pattern.Some?
        then AddName(old(Model()), name, Criteria(kind, persist, pattern, None)) else old(Model())
    {
      if pattern.None? {
        return false;
      }
      NamesKeepSound(Model(), name, Criteria(kind, persist, pattern, None));
      ok := names.Insert(Some(name), Some(Criteria(kind, persist, pattern, None)));
    }

    /** `iw_val_store_delete_name`: the name goes, and the value with it. */
    method RemoveName(name: string)
      requires Valid() && controlled
      modifies table, table.buckets, names, names.buckets
      ensures Valid() && Model() == DeleteName(old(Model()), name)
    {
      NamesKeepSound(Model(), name, Criteria(NoKind, false, None, None));
      var ok, gone := names.Delete(Some(name));
      var had, old' := table.Delete(Some(name));
    }
  }

  /** A new name answers the persistence it was registered with. */
  method PersistIsAnswered(store: Store, name: string, kind: Kind, persist: bool) returns (ok: bool, answer: bool)
    requires store.Valid() && store.controlled && Hash(name) !in store.Model().names
    modifies store.names, store.names.buckets
    ensures ok && answer == persist
  {
    ok := store.AddPlainName(name, kind, persist);
    answer := store.GetPersist(name);
  }

  /** A setting of one character takes "a"; "ab" is refused and changes nothing. */
  method OneCharacter() returns (first: Ret, ret: Ret, val: Option<Val>)
    ensures first == Accepted && ret == FailedRegexp && val == Some(Val("c", Str("a")))
  {
    hide H.HashData, Answers, Sound, Store.Valid;
    var store := new Store(true);
    var ok := store.AddPatternName("c", StringKind, Some(text => |text| == 1), true);
    first := store.SetString("c", "a");
    ret := store.SetString("c", "ab");
    val := store.Lookup("c");
  }

  /** An address its pattern refuses is not stored, and yet the answer is that it was. */
  method AddressRefusedQuietly() returns (ret: Ret, val: Option<Val>)
    ensures ret == Accepted && val == None
  {
    var store := new Store(true);
    var ok := store.AddPatternName("a", AddressKind, Some(text => false), false);
    assert Held(store.Model().names, Hash("a")).Some?;
    ret := store.SetAddress("a", "::1");
    val := store.Lookup("a");
  }

  lemma OneDigitMore(n: nat, d: nat)
    requires 0 < n && d < 10
    ensures Decimal(10 * n + d) == Decimal(n) + [('0' as int + d) as char]
  {
  }

  lemma LongNumber()
    ensures PrintInt(4294967376) == "4294967376"
  {
    hide Decimal;
    assert Decimal(4) == "4" by {
      SingleDigit(4);
    }
    OneDigitMore(4, 2);
    OneDigitMore(42, 9);
    OneDigitMore(429, 4);
    OneDigitMore(4294, 9);
    assert Decimal(42949) == "42949";
    OneDigitMore(42949, 6);
    OneDigitMore(429496, 7);
    OneDigitMore(4294967, 3);
    OneDigitMore(42949673, 7);
    OneDigitMore(429496737, 6);
  }

  lemma SingleDigit(n: nat)
    requires n < 10
    ensures Decimal(n) == [('0' as int + n) as char]
  {
  }

  /** A port is set by the text of a number that is no port, and holds port 80. */
  method PortFromLongNumber(addresses: string -> Option<string>) returns (first: Ret, ret: Ret, val: Option<Val>)
    ensures first == Accepted && ret == Accepted && val == Some(Val("port", Number(80)))
  {
    hide PortPattern, PrintInt, StrToLL, H.HashData;
    var store := new Store(true);
    var ok := store.AddPatternName("port", NumberKind, Some(text => PortPattern(text)), false);
    assert IsPort(Held(store.Model().names, Hash("port")));
    PortTakesExactly(store.Model(), "port", 1);
    first := store.SetNumber("port", 1);
    LongNumber();
    AnyBaseOfPrintInt(4294967376);
    PortTakesExactly(store.Model(), "port", 80);
    ret := store.SetExistingValue("port", "4294967376", addresses);
    val := store.Lookup("port");
  }

  function Persisted(s: State, name: string): bool {
    var crit := Held(s.names, Hash(name));
    crit.Some? && crit.value.persist
  }

  /** The answer to setting by text: that of the check, except that a rejected address is
      answered like an accepted one. */
  function AnswerToExisting(s: State, name: string, text: string, addresses: string -> Option<string>): Ret {
    var r := Reading(s, name, text, addresses);
    if r.0 != Accepted then r.0
    else if r.1.body.Address? then Accepted
    else Check(s, name, r.1)
  }
}
