/**
 * `buildTco` in src/components/CommandView.tsx: a parsed command line is checked
 * against the satellite's command schema and turned into a telecommand object
 * (TCO) with named, typed parameters.
 */
module TcoBuilder {
  import opened Wrappers
  import opened JsString
  import opened CommandLine

  // ---------------------------------------------------------------------------
  // Schema

  datatype SubsystemSchema = SubsystemSchema(hasTimeIndicator: bool)

  /** A command prefix and the components (subsystems) it is defined for. */
  datatype PrefixSchema = PrefixSchema(subsystems: map<string, SubsystemSchema>)

  /** `CommandParameterDataType`; `Unspecified` stands for any other code, which
    * no case of the slot switch matches. */
  datatype DataType = CmdParameterBytes | CmdParameterInteger | CmdParameterDouble | Unspecified

  datatype ParameterSchema = ParameterSchema(dataType: DataType)

  datatype CommandSchema = CommandSchema(parameters: seq<ParameterSchema>)

  datatype ComponentSchema = ComponentSchema(commands: map<string, CommandSchema>)

  // ---------------------------------------------------------------------------
  // Telecommand

  datatype TcoValue = TcoInteger(integer: int) | TcoDouble(double: JsFloat) | TcoBytes(bytes: seq<Byte>)

  datatype TcoParam = TcoParam(name: string, value: TcoValue)

  datatype Tco = Tco(name: string, params: seq<TcoParam>)

  /** The errors `buildTco` throws, in the order it checks for them. */
  datatype TcoError =
    | NoSuchCommandPrefix(prefix: string)
    | PrefixNotDefinedForComponent(component: string)
    | NoSuchComponent(component: string)
    | NoSuchCommand(component: string, command: string)
    | WrongParameterCount(expected: nat, got: nat)
    | TimeIndicatorNotInteger
    | MustBeBytes(name: string)
    | MustBeInteger(name: string)

  const TimeIndicatorName: string := "time_indicator"

  /** `param${i + 1}`: the name of the slot with zero-based index `i`. */
  function ParamName(i: nat): string
  {
    "param" + NatToDecimal(i + 1)
  }

  /** A slot name is `param` followed by the slot's one-based number. */
  lemma ParamNameParts(i: nat)
    ensures var r := ParamName(i); |r| > 5 && r[..5] == "param" && r[5..] == NatToDecimal(i + 1)
  {
    var d := NatToDecimal(i + 1);
    assert ("param" + d)[..5] == "param" && ("param" + d)[5..] == d;
  }

  /** Slot names are distinct, and none is the time indicator's name. */
  lemma ParamNamesDistinct(i: nat, j: nat)
    ensures ParamName(i) == ParamName(j) <==> i == j
    ensures ParamName(i) != TimeIndicatorName
  {
    ParamNameParts(i);
    ParamNameParts(j);
    NatToDecimalSpec(i + 1);
    NatToDecimalSpec(j + 1);
    if ParamName(i) == ParamName(j) {
      assert NatToDecimal(i + 1) == ParamName(i)[5..] == ParamName(j)[5..] == NatToDecimal(j + 1);
    }
    assert ParamName(i)[1] == 'a' != TimeIndicatorName[1];
  }

  // ---------------------------------------------------------------------------
  // Parameter conversion

  /** The time indicator: an integer as it is, bytes by their `bigint` value,
    * a double rejected. */
  function TimeIndicator(p: ParameterValue): (r: Result<TcoParam, TcoError>)
    ensures r.Success? <==> !p.DoubleValue?
    ensures r.Success? ==> r.value.name == TimeIndicatorName && r.value.value.TcoInteger?
    ensures p.IntegerValue? ==> r == Success(TcoParam(TimeIndicatorName, TcoInteger(p.integer)))
    ensures p.BytesValue? ==> r == Success(TcoParam(TimeIndicatorName, TcoInteger(p.bigint)))
    ensures r.Failure? ==> r.error == TimeIndicatorNotInteger
  {
    match p
    case IntegerValue(n) => Success(TcoParam(TimeIndicatorName, TcoInteger(n)))
    case BytesValue(_, bigint) => Success(TcoParam(TimeIndicatorName, TcoInteger(bigint)))
    case DoubleValue(_) => Failure(TimeIndicatorNotInteger)
  }

  /** One slot of the schema switch. `None` is a slot of an unlisted data type,
    * for which nothing is pushed. `Number(bigint)` is supplied by the caller. */
  function ConvertParameter(dataType: DataType, name: string, p: ParameterValue, bigintToNumber: nat -> JsFloat)
    : (r: Result<Option<TcoValue>, TcoError>)
    ensures r.Success? <==> Accepts(dataType, p)
  {
    match dataType
    case CmdParameterBytes =>
      (match p
       case BytesValue(bytes, _) => Success(Some(TcoBytes(bytes)))
       case _ => Failure(MustBeBytes(name)))
    case CmdParameterInteger =>
      (match p
       case IntegerValue(n) => Success(Some(TcoInteger(n)))
       case BytesValue(_, bigint) => Success(Some(TcoInteger(bigint)))
       case _ => Failure(MustBeInteger(name)))
    case CmdParameterDouble =>
      (match p
       case DoubleValue(d) => Success(Some(TcoDouble(d)))
       case IntegerValue(n) => Success(Some(TcoDouble(Finite(n as real))))
       case BytesValue(_, bigint) => Success(Some(TcoDouble(bigintToNumber(bigint)))))
    case Unspecified => Success(None)
  }

  /** Which values a slot accepts, what kind of value it sends, and the error
    * it reports otherwise. */
  lemma ConvertParameterCases(dataType: DataType, name: string, p: ParameterValue, bigintToNumber: nat -> JsFloat)
    ensures var r := ConvertParameter(dataType, name, p, bigintToNumber);
      && (dataType == CmdParameterBytes ==> (r.Success? <==> p.BytesValue?))
      && (dataType == CmdParameterInteger ==> (r.Success? <==> !p.DoubleValue?))
      && (dataType == CmdParameterDouble ==> r.Success?)
      && (dataType == Unspecified ==> r == Success(None))
      && (r.Success? ==> (r.value.None? <==> dataType == Unspecified))
      && (r.Success? && r.value.Some? ==>
            (r.value.value.TcoBytes? <==> dataType == CmdParameterBytes) &&
            (r.value.value.TcoInteger? <==> dataType == CmdParameterInteger) &&
            (r.value.value.TcoDouble? <==> dataType == CmdParameterDouble))
      && (r.Failure? ==>
            r.error == (if dataType == CmdParameterBytes then MustBeBytes(name) else MustBeInteger(name)))
  {
  }

  /** Accepted values keep their meaning: an integer is sent as that integer,
    * bytes as those bytes, bytes in an integer slot as their `bigint`, and
    * bytes in a double slot as `Number` of their `bigint`. */
  lemma ConvertedValues(dataType: DataType, name: string, p: ParameterValue, bigintToNumber: nat -> JsFloat)
    ensures var r := ConvertParameter(dataType, name, p, bigintToNumber);
      && (p.IntegerValue? && dataType == CmdParameterInteger ==> r == Success(Some(TcoInteger(p.integer))))
      && (p.BytesValue? && dataType == CmdParameterInteger ==> r == Success(Some(TcoInteger(p.bigint))))
      && (p.BytesValue? && dataType == CmdParameterBytes ==> r == Success(Some(TcoBytes(p.bytes))))
      && (p.DoubleValue? && dataType == CmdParameterDouble ==> r == Success(Some(TcoDouble(p.double))))
      && (p.IntegerValue? && dataType == CmdParameterDouble ==> r == Success(Some(TcoDouble(Finite(p.integer as real)))))
      && (p.BytesValue? && dataType == CmdParameterDouble ==> r == Success(Some(TcoDouble(bigintToNumber(p.bigint)))))
  {
  }

  /** The slot loop over the first `k` slots: slot `i` takes parameter `i`,
    * and the first slot that rejects its value decides the error. */
  function ConvertSlots(schemas: seq<ParameterSchema>, params: seq<ParameterValue>, k: nat, bigintToNumber: nat -> JsFloat)
    : (r: Result<seq<TcoParam>, TcoError>)
    requires k <= |schemas| <= |params|
    ensures r.Success? ==> |r.value| <= k
  {
    if k == 0 then Success([])
    else
      var front := ConvertSlots(schemas, params, k - 1, bigintToNumber);
      var slot := ConvertParameter(schemas[k - 1].dataType, ParamName(k - 1), params[k - 1], bigintToNumber);
      if front.Failure? then front
      else if slot.Failure? then Failure(slot.error)
      else Success(front.value + if slot.value.Some? then [TcoParam(ParamName(k - 1), slot.value.value)] else [])
  }

  /** A slot that rejects its value, after slots that all accepted, decides
    * the outcome of the whole loop. */
  lemma SlotRejects(schemas: seq<ParameterSchema>, params: seq<ParameterValue>, k: nat, bigintToNumber: nat -> JsFloat)
    requires k < |schemas| <= |params|
    requires ConvertSlots(schemas, params, k, bigintToNumber).Success?
    requires ConvertParameter(schemas[k].dataType, ParamName(k), params[k], bigintToNumber).Failure?
    ensures ConvertSlots(schemas, params, |schemas|, bigintToNumber) ==
      Failure(ConvertParameter(schemas[k].dataType, ParamName(k), params[k], bigintToNumber).error)
  {
    var slot := ConvertParameter(schemas[k].dataType, ParamName(k), params[k], bigintToNumber);
    assert ConvertSlots(schemas, params, k + 1, bigintToNumber) == Failure(slot.error);
    SlotFailureSticks(schemas, params, k + 1, |schemas|, bigintToNumber);
  }

  /** A slot with a listed data type pushes its converted value. */
  lemma SlotPushes(schemas: seq<ParameterSchema>, params: seq<ParameterValue>, k: nat, bigintToNumber: nat -> JsFloat,
                   front: seq<TcoParam>, value: TcoValue)
    requires k < |schemas| <= |params|
    requires ConvertSlots(schemas, params, k, bigintToNumber) == Success(front)
    requires ConvertParameter(schemas[k].dataType, ParamName(k), params[k], bigintToNumber) == Success(Some(value))
    ensures ConvertSlots(schemas, params, k + 1, bigintToNumber) == Success(front + [TcoParam(ParamName(k), value)])
  {
  }

  /** A slot whose data type is unlisted pushes nothing. */
  lemma SlotSkips(schemas: seq<ParameterSchema>, params: seq<ParameterValue>, k: nat, bigintToNumber: nat -> JsFloat,
                  front: seq<TcoParam>)
    requires k < |schemas| <= |params|
    requires ConvertSlots(schemas, params, k, bigintToNumber) == Success(front)
    requires ConvertParameter(schemas[k].dataType, ParamName(k), params[k], bigintToNumber) == Success(None)
    ensures ConvertSlots(schemas, params, k + 1, bigintToNumber) == Success(front)
  {
    assert front + [] == front;
  }

  /** Once a slot has rejected its value, the slot loop fails with that error
    * however many slots follow. */
  lemma {:induction false} SlotFailureSticks(schemas: seq<ParameterSchema>, params: seq<ParameterValue>, k: nat, n: nat, bigintToNumber: nat -> JsFloat)
    requires k <= n <= |schemas| <= |params|
    requires ConvertSlots(schemas, params, k, bigintToNumber).Failure?
    ensures ConvertSlots(schemas, params, n, bigintToNumber) == ConvertSlots(schemas, params, k, bigintToNumber)
    decreases n - k
  {
    if k < n {
      SlotFailureSticks(schemas, params, k, n - 1, bigintToNumber);
      FailurePassesOn(schemas, params, n, bigintToNumber);
    }
  }

  /** A failed loop stays failed for one more slot. */
  lemma FailurePassesOn(schemas: seq<ParameterSchema>, params: seq<ParameterValue>, n: nat, bigintToNumber: nat -> JsFloat)
    requires 0 < n <= |schemas| <= |params|
    requires ConvertSlots(schemas, params, n - 1, bigintToNumber).Failure?
    ensures ConvertSlots(schemas, params, n, bigintToNumber) == ConvertSlots(schemas, params, n - 1, bigintToNumber)
  {
  }

  predicate AllTypesListed(schemas: seq<ParameterSchema>)
  {
    forall i :: 0 <= i < |schemas| ==> schemas[i].dataType != Unspecified
  }

  /** Which values a slot of a data type takes: a bytes slot only bytes, an
    * integer slot anything but a double, a double or unlisted slot anything. */
  predicate Accepts(dataType: DataType, p: ParameterValue)
  {
    match dataType
    case CmdParameterBytes => p.BytesValue?
    case CmdParameterInteger => !p.DoubleValue?
    case _ => true
  }

  /** Whether slot `i` accepts its value. */
  predicate SlotAccepts(schemas: seq<ParameterSchema>, params: seq<ParameterValue>, i: nat)
    requires i < |schemas| <= |params|
  {
    Accepts(schemas[i].dataType, params[i])
  }

  /** After slots that all accepted, one more slot succeeds exactly when it
    * accepts its value. */
  lemma SlotStepAccepts(schemas: seq<ParameterSchema>, params: seq<ParameterValue>, k: nat, bigintToNumber: nat -> JsFloat)
    requires k < |schemas| <= |params|
    requires ConvertSlots(schemas, params, k, bigintToNumber).Success?
    ensures ConvertSlots(schemas, params, k + 1, bigintToNumber).Success? <==> SlotAccepts(schemas, params, k)
  {
    ConvertParameterCases(schemas[k].dataType, ParamName(k), params[k], bigintToNumber);
  }

  /** The slot loop succeeds exactly when every slot accepts its value. */
  lemma {:induction false} ConvertSlotsSuccess(schemas: seq<ParameterSchema>, params: seq<ParameterValue>, k: nat, bigintToNumber: nat -> JsFloat)
    requires k <= |schemas| <= |params|
    ensures ConvertSlots(schemas, params, k, bigintToNumber).Success? <==>
      forall i :: 0 <= i < k ==> SlotAccepts(schemas, params, i)
  {
    if k > 0 {
      ConvertSlotsSuccess(schemas, params, k - 1, bigintToNumber);
      if ConvertSlots(schemas, params, k - 1, bigintToNumber).Success? {
        SlotStepAccepts(schemas, params, k - 1, bigintToNumber);
        if SlotAccepts(schemas, params, k - 1) {
          forall i | 0 <= i < k ensures SlotAccepts(schemas, params, i) {
          }
        }
      } else {
        var i :| 0 <= i < k - 1 && !SlotAccepts(schemas, params, i);
        FailurePassesOn(schemas, params, k, bigintToNumber);
      }
    }
  }

  /** When every data type is a listed one, the slot loop emits one parameter
    * per slot, in slot order, named `param1`, `param2`, ... */
  lemma {:induction false} ConvertSlotsShape(schemas: seq<ParameterSchema>, params: seq<ParameterValue>, k: nat, bigintToNumber: nat -> JsFloat)
    requires k <= |schemas| <= |params| && AllTypesListed(schemas)
    requires ConvertSlots(schemas, params, k, bigintToNumber).Success?
    ensures var out := ConvertSlots(schemas, params, k, bigintToNumber).value;
      && |out| == k
      && forall i :: 0 <= i < k ==>
           out[i].name == ParamName(i) &&
           ConvertParameter(schemas[i].dataType, ParamName(i), params[i], bigintToNumber) == Success(Some(out[i].value))
  {
    if k > 0 {
      var slot := ConvertParameter(schemas[k - 1].dataType, ParamName(k - 1), params[k - 1], bigintToNumber);
      assert ConvertSlots(schemas, params, k - 1, bigintToNumber).Success? && slot.Success?;
      var front := ConvertSlots(schemas, params, k - 1, bigintToNumber).value;
      ConvertSlotsShape(schemas, params, k - 1, bigintToNumber);
      assert slot.value.Some?;
      SlotPushes(schemas, params, k - 1, bigintToNumber, front, slot.value.value);
      var out := front + [TcoParam(ParamName(k - 1), slot.value.value)];
      forall i | 0 <= i < k
        ensures out[i].name == ParamName(i)
        ensures ConvertParameter(schemas[i].dataType, ParamName(i), params[i], bigintToNumber) == Success(Some(out[i].value))
      {
        if i < k - 1 {
          assert out[i] == front[i];
        }
      }
    }
  }

  // ---------------------------------------------------------------------------
  // The whole builder

  /** `buildTco` as one expression: the schema lookups in the order the source
    * makes them, the count check, the time indicator (the last parameter, sent
    * first), then the slots. */
  function Build(prefixes: map<string, PrefixSchema>, components: map<string, ComponentSchema>,
                 line: CommandLine, bigintToNumber: nat -> JsFloat): (r: Result<Tco, TcoError>)
    ensures r.Success? ==> r.value.name == FullName(line.command) && |r.value.params| <= |line.parameters|
  {
    var c := line.command;
    if c.prefix !in prefixes then Failure(NoSuchCommandPrefix(c.prefix))
    else if c.component !in prefixes[c.prefix].subsystems then Failure(PrefixNotDefinedForComponent(c.component))
    else if c.component !in components then Failure(NoSuchComponent(c.component))
    else if c.command !in components[c.component].commands then Failure(NoSuchCommand(c.component, c.command))
    else
      var hasTimeIndicator := prefixes[c.prefix].subsystems[c.component].hasTimeIndicator;
      var schemas := components[c.component].commands[c.command].parameters;
      var ps := line.parameters;
      if |ps| != |schemas| + (if hasTimeIndicator then 1 else 0) then
        Failure(WrongParameterCount(|schemas|, |ps|))
      else
        var params := TcoParams(hasTimeIndicator, schemas, ps, bigintToNumber);
        if params.Failure? then Failure(params.error) else Success(Tco(FullName(c), params.value))
  }

  /** The time indicator part of the output: nothing, or the converted last parameter. */
  function TimeIndicatorParams(hasTimeIndicator: bool, ps: seq<ParameterValue>): (r: Result<seq<TcoParam>, TcoError>)
    requires hasTimeIndicator ==> |ps| >= 1
    ensures r.Success? ==> |r.value| == if hasTimeIndicator then 1 else 0
  {
    if !hasTimeIndicator then Success([])
    else
      var ti := TimeIndicator(ps[|ps| - 1]);
      if ti.Failure? then Failure(ti.error) else Success([ti.value])
  }

  /** The parameters of a command whose count has been checked: the time
    * indicator first, then the slots. */
  function TcoParams(hasTimeIndicator: bool, schemas: seq<ParameterSchema>, ps: seq<ParameterValue>,
                     bigintToNumber: nat -> JsFloat): (r: Result<seq<TcoParam>, TcoError>)
    requires |ps| == |schemas| + (if hasTimeIndicator then 1 else 0)
    ensures r.Success? ==> |r.value| <= |ps|
    ensures r.Success? && hasTimeIndicator ==> |r.value| >= 1 && TimeIndicator(ps[|ps| - 1]) == Success(r.value[0])
  {
    var head := TimeIndicatorParams(hasTimeIndicator, ps);
    var slots := ConvertSlots(schemas, ps[..|schemas|], |schemas|, bigintToNumber);
    if head.Failure? then Failure(head.error)
    else if slots.Failure? then Failure(slots.error)
    else Success(head.value + slots.value)
  }

  /** `buildTco`. The source pops the time indicator off the caller's parameter
    * array; here the pop is on a local copy. */
  method BuildTco(prefixes: map<string, PrefixSchema>, components: map<string, ComponentSchema>,
                  line: CommandLine, bigintToNumber: nat -> JsFloat) returns (r: Result<Tco, TcoError>)
    ensures r == Build(prefixes, components, line, bigintToNumber)
  {
    var c := line.command;
    if c.prefix !in prefixes {
      return Failure(NoSuchCommandPrefix(c.prefix));
    }
    var commandPrefix := prefixes[c.prefix];
    if c.component !in commandPrefix.subsystems {
      return Failure(PrefixNotDefinedForComponent(c.component));
    }
    var commandSubsystem := commandPrefix.subsystems[c.component];
    if c.component !in components {
      return Failure(NoSuchComponent(c.component));
    }
    var componentSchema := components[c.component];
    if c.command !in componentSchema.commands {
      return Failure(NoSuchCommand(c.component, c.command));
    }
    var schemas := componentSchema.commands[c.command].parameters;
    var extraParams := if commandSubsystem.hasTimeIndicator then 1 else 0;
    var parameters := line.parameters;
    if |parameters| != |schemas| + extraParams {
      return Failure(WrongParameterCount(|schemas|, |parameters|));
    }
    ghost var expected := TcoParams(commandSubsystem.hasTimeIndicator, schemas, line.parameters, bigintToNumber);
    assert Build(prefixes, components, line, bigintToNumber) ==
      if expected.Failure? then Failure(expected.error) else Success(Tco(FullName(c), expected.value));
    var tcoParams: seq<TcoParam> := [];
    if commandSubsystem.hasTimeIndicator {
      var parameter := parameters[|parameters| - 1];
      parameters := parameters[..|parameters| - 1];
      var timeIndicator := TimeIndicator(parameter);
      if timeIndicator.Failure? {
        return Failure(timeIndicator.error);
      }
      tcoParams := [timeIndicator.value];
    }
    assert parameters == line.parameters[..|schemas|];
    var slots := ConvertSlotsLoop(schemas, parameters, bigintToNumber);
    if slots.Failure? {
      return Failure(slots.error);
    }
    r := Success(Tco(FullName(c), tcoParams + slots.value));
  }

  /** The `for` loop of `buildTco` over the schema's slots: slot `i` takes
    * parameter `i` and pushes `param{i+1}`, unless its data type is unlisted. */
  method ConvertSlotsLoop(schemas: seq<ParameterSchema>, parameters: seq<ParameterValue>, bigintToNumber: nat -> JsFloat)
    returns (r: Result<seq<TcoParam>, TcoError>)
    requires |schemas| == |parameters|
    ensures r == ConvertSlots(schemas, parameters, |schemas|, bigintToNumber)
  {
    var tcoParams: seq<TcoParam> := [];
    var i := 0;
    while i < |schemas|
      invariant 0 <= i <= |schemas|
      invariant ConvertSlots(schemas, parameters, i, bigintToNumber) == Success(tcoParams)
    {
      var name := ParamName(i);
      var converted := ConvertParameter(schemas[i].dataType, name, parameters[i], bigintToNumber);
      if converted.Failure? {
        SlotRejects(schemas, parameters, i, bigintToNumber);
        return Failure(converted.error);
      }
      if converted.value.Some? {
        SlotPushes(schemas, parameters, i, bigintToNumber, tcoParams, converted.value.value);
        tcoParams := tcoParams + [TcoParam(name, converted.value.value)];
      } else {
        SlotSkips(schemas, parameters, i, bigintToNumber, tcoParams);
      }
      i := i + 1;
    }
    r := Success(tcoParams);
  }

  // ---------------------------------------------------------------------------
  // Properties

  /** A built telecommand names a command the schema defines, under a prefix
    * defined for its component, with the right number of parameters. */
  lemma BuildChecksSchema(prefixes: map<string, PrefixSchema>, components: map<string, ComponentSchema>,
                          line: CommandLine, bigintToNumber: nat -> JsFloat)
    ensures var r := Build(prefixes, components, line, bigintToNumber);
      var c := line.command;
      r.Success? ==>
        && c.prefix in prefixes && c.component in prefixes[c.prefix].subsystems
        && c.component in components && c.command in components[c.component].commands
        && |line.parameters| == |components[c.component].commands[c.command].parameters|
             + (if prefixes[c.prefix].subsystems[c.component].hasTimeIndicator then 1 else 0)
  {
  }

  /** The four lookups `buildTco` makes succeed: the prefix, the prefix's
    * entry for the component, the component and its command. */
  predicate CommandDefined(prefixes: map<string, PrefixSchema>, components: map<string, ComponentSchema>, c: CommandName)
  {
    && c.prefix in prefixes && c.component in prefixes[c.prefix].subsystems
    && c.component in components && c.command in components[c.component].commands
  }

  /** Whether the command's component sends a time indicator. */
  function HasTimeIndicator(prefixes: map<string, PrefixSchema>, c: CommandName): bool
    requires c.prefix in prefixes && c.component in prefixes[c.prefix].subsystems
  {
    prefixes[c.prefix].subsystems[c.component].hasTimeIndicator
  }

  /** The command's parameter slots. */
  function SlotSchemas(components: map<string, ComponentSchema>, c: CommandName): seq<ParameterSchema>
    requires c.component in components && c.command in components[c.component].commands
  {
    components[c.component].commands[c.command].parameters
  }

  /** The line has one parameter per slot, plus the time indicator if any. */
  predicate CountMatches(prefixes: map<string, PrefixSchema>, components: map<string, ComponentSchema>, line: CommandLine)
    requires CommandDefined(prefixes, components, line.command)
  {
    |line.parameters| == |SlotSchemas(components, line.command)| + (if HasTimeIndicator(prefixes, line.command) then 1 else 0)
  }

  /** The time indicator, when there is one, is the last parameter and not a double. */
  predicate TimeIndicatorAccepted(hasTimeIndicator: bool, ps: seq<ParameterValue>)
  {
    hasTimeIndicator ==> |ps| >= 1 && !ps[|ps| - 1].DoubleValue?
  }

  /** Every slot accepts the parameter at its place. */
  predicate AllSlotsAccept(schemas: seq<ParameterSchema>, ps: seq<ParameterValue>)
    requires |schemas| <= |ps|
  {
    forall i :: 0 <= i < |schemas| ==> Accepts(schemas[i].dataType, ps[i])
  }

  /** The errors `buildTco` reports before it looks at any slot, in the order
    * it checks: an unknown prefix, a prefix not defined for the component, an
    * unknown component, an unknown command, a wrong parameter count, and then
    * a time indicator that is a double. */
  lemma BuildRejects(prefixes: map<string, PrefixSchema>, components: map<string, ComponentSchema>,
                     line: CommandLine, bigintToNumber: nat -> JsFloat)
    ensures var r := Build(prefixes, components, line, bigintToNumber);
      var c := line.command;
      && (c.prefix !in prefixes ==> r == Failure(NoSuchCommandPrefix(c.prefix)))
      && (c.prefix in prefixes && c.component !in prefixes[c.prefix].subsystems ==>
            r == Failure(PrefixNotDefinedForComponent(c.component)))
      && (c.prefix in prefixes && c.component in prefixes[c.prefix].subsystems && c.component !in components ==>
            r == Failure(NoSuchComponent(c.component)))
      && (c.prefix in prefixes && c.component in prefixes[c.prefix].subsystems && c.component in components
          && c.command !in components[c.component].commands ==>
            r == Failure(NoSuchCommand(c.component, c.command)))
      && (CommandDefined(prefixes, components, c) && !CountMatches(prefixes, components, line) ==>
            r == Failure(WrongParameterCount(|SlotSchemas(components, c)|, |line.parameters|)))
      && (CommandDefined(prefixes, components, c) && CountMatches(prefixes, components, line)
          && !TimeIndicatorAccepted(HasTimeIndicator(prefixes, c), line.parameters) ==>
            r == Failure(TimeIndicatorNotInteger))
  {
  }

  /** Once the lookups, the count and the time indicator have passed, the
    * first slot that rejects its parameter decides the error: "must be bytes"
    * for a bytes slot and "must be an integer" otherwise, naming the slot. */
  lemma BuildRejectsSlot(prefixes: map<string, PrefixSchema>, components: map<string, ComponentSchema>,
                         line: CommandLine, bigintToNumber: nat -> JsFloat, k: nat)
    requires CommandDefined(prefixes, components, line.command) && CountMatches(prefixes, components, line)
    requires TimeIndicatorAccepted(HasTimeIndicator(prefixes, line.command), line.parameters)
    requires k < |SlotSchemas(components, line.command)|
    requires forall i :: 0 <= i < k ==> Accepts(SlotSchemas(components, line.command)[i].dataType, line.parameters[i])
    requires !Accepts(SlotSchemas(components, line.command)[k].dataType, line.parameters[k])
    ensures Build(prefixes, components, line, bigintToNumber) ==
      Failure(if SlotSchemas(components, line.command)[k].dataType == CmdParameterBytes
              then MustBeBytes(ParamName(k)) else MustBeInteger(ParamName(k)))
  {
    var schemas := SlotSchemas(components, line.command);
    var front := line.parameters[..|schemas|];
    forall i | 0 <= i < k ensures SlotAccepts(schemas, front, i) {
      assert front[i] == line.parameters[i];
    }
    ConvertSlotsSuccess(schemas, front, k, bigintToNumber);
    assert front[k] == line.parameters[k];
    ConvertParameterCases(schemas[k].dataType, ParamName(k), front[k], bigintToNumber);
    SlotRejects(schemas, front, k, bigintToNumber);
  }

  /** `buildTco` succeeds exactly when every check passes: the four lookups,
    * the parameter count, the time indicator and every slot. */
  lemma BuildSucceeds(prefixes: map<string, PrefixSchema>, components: map<string, ComponentSchema>,
                      line: CommandLine, bigintToNumber: nat -> JsFloat)
    ensures Build(prefixes, components, line, bigintToNumber).Success? <==>
      && CommandDefined(prefixes, components, line.command)
      && CountMatches(prefixes, components, line)
      && TimeIndicatorAccepted(HasTimeIndicator(prefixes, line.command), line.parameters)
      && AllSlotsAccept(SlotSchemas(components, line.command), line.parameters)
  {
    if CommandDefined(prefixes, components, line.command) && CountMatches(prefixes, components, line) {
      var schemas := SlotSchemas(components, line.command);
      var front := line.parameters[..|schemas|];
      ConvertSlotsSuccess(schemas, front, |schemas|, bigintToNumber);
      forall i | 0 <= i < |schemas| ensures SlotAccepts(schemas, front, i) == Accepts(schemas[i].dataType, line.parameters[i]) {
        assert front[i] == line.parameters[i];
      }
    }
  }

  /** The telecommand's name is `prefix.component.command`, and splitting it on
    * `.` gives back the same triple whenever the parts are dot-free (as every
    * parsed name is). */
  lemma BuildName(prefixes: map<string, PrefixSchema>, components: map<string, ComponentSchema>,
                  line: CommandLine, bigintToNumber: nat -> JsFloat)
    requires DotFree(line.command)
    ensures var r := Build(prefixes, components, line, bigintToNumber);
      r.Success? ==> r.value.name == FullName(line.command) &&
                     ParseCommandFullName(r.value.name) == Success(line.command)
  {
    FullNameRoundTrip(line.command);
  }

  /** With a time indicator, the last parameter is sent first as
    * `time_indicator`, and parameter `i` fills slot `param{i+1}`; when every
    * slot has a listed data type there are exactly schema count + 1 outputs.
    * Without one, the outputs are the slots alone. */
  lemma BuildParams(prefixes: map<string, PrefixSchema>, components: map<string, ComponentSchema>,
                    line: CommandLine, bigintToNumber: nat -> JsFloat)
    requires line.command.prefix in prefixes
    requires line.command.component in prefixes[line.command.prefix].subsystems
    requires line.command.component in components
    requires line.command.command in components[line.command.component].commands
    ensures var r := Build(prefixes, components, line, bigintToNumber);
      var c := line.command;
      var hasTimeIndicator := prefixes[c.prefix].subsystems[c.component].hasTimeIndicator;
      var schemas := components[c.component].commands[c.command].parameters;
      var extra := if hasTimeIndicator then 1 else 0;
      var ps := line.parameters;
      r.Success? ==>
        && (hasTimeIndicator ==> r.value.params[0] == TimeIndicator(ps[|ps| - 1]).value)
        && (AllTypesListed(schemas) ==> SlotsLaidOut(schemas, ps, bigintToNumber, r.value.params, extra))
  {
    var c := line.command;
    var hasTimeIndicator := prefixes[c.prefix].subsystems[c.component].hasTimeIndicator;
    var schemas := components[c.component].commands[c.command].parameters;
    if |line.parameters| == |schemas| + (if hasTimeIndicator then 1 else 0) {
      TcoParamsShape(hasTimeIndicator, schemas, line.parameters, bigintToNumber);
    }
  }

  /** `out` holds, from place `extra` on, one parameter per slot in slot order:
    * slot `i` is named `param{i+1}` and carries what parameter `i` converts to. */
  predicate SlotsLaidOut(schemas: seq<ParameterSchema>, ps: seq<ParameterValue>, bigintToNumber: nat -> JsFloat,
                         out: seq<TcoParam>, extra: nat)
    requires |schemas| <= |ps|
  {
    && |out| == |schemas| + extra
    && forall i :: 0 <= i < |schemas| ==>
         out[i + extra].name == ParamName(i) &&
         ConvertParameter(schemas[i].dataType, ParamName(i), ps[i], bigintToNumber) == Success(Some(out[i + extra].value))
  }

  /** The parameters sent: the converted time indicator first, then slot `i`
    * at place `i` after it. */
  lemma TcoParamsShape(hasTimeIndicator: bool, schemas: seq<ParameterSchema>, ps: seq<ParameterValue>,
                       bigintToNumber: nat -> JsFloat)
    requires |ps| == |schemas| + (if hasTimeIndicator then 1 else 0)
    ensures var r := TcoParams(hasTimeIndicator, schemas, ps, bigintToNumber);
      var extra := if hasTimeIndicator then 1 else 0;
      r.Success? ==>
        && (hasTimeIndicator ==> r.value[0] == TimeIndicator(ps[|ps| - 1]).value)
        && (AllTypesListed(schemas) ==> SlotsLaidOut(schemas, ps, bigintToNumber, r.value, extra))
  {
    var r := TcoParams(hasTimeIndicator, schemas, ps, bigintToNumber);
    if r.Success? {
      var extra := if hasTimeIndicator then 1 else 0;
      var front := ps[..|schemas|];
      var head := TimeIndicatorParams(hasTimeIndicator, ps).value;
      var slots := ConvertSlots(schemas, front, |schemas|, bigintToNumber).value;
      assert r.value == head + slots;
      assert |head| == extra;
      if hasTimeIndicator {
        assert r.value[0] == head[0];
      }
      if AllTypesListed(schemas) {
        ConvertSlotsShape(schemas, front, |schemas|, bigintToNumber);
        SlotsAfterHead(head, slots, schemas, ps, bigintToNumber);
      }
    }
  }

  /** Slot parameters keep their names and values behind whatever is sent
    * before them. */
  lemma SlotsAfterHead(head: seq<TcoParam>, slots: seq<TcoParam>, schemas: seq<ParameterSchema>,
                       ps: seq<ParameterValue>, bigintToNumber: nat -> JsFloat)
    requires |slots| == |schemas| <= |ps|
    requires forall i :: 0 <= i < |schemas| ==>
      slots[i].name == ParamName(i) &&
      ConvertParameter(schemas[i].dataType, ParamName(i), ps[..|schemas|][i], bigintToNumber) == Success(Some(slots[i].value))
    ensures SlotsLaidOut(schemas, ps, bigintToNumber, head + slots, |head|)
  {
    forall i | 0 <= i < |schemas|
      ensures (head + slots)[i + |head|] == slots[i] && ps[..|schemas|][i] == ps[i]
    {
    }
  }

  /** A built telecommand never repeats a parameter name. */
  lemma BuildNamesUnique(prefixes: map<string, PrefixSchema>, components: map<string, ComponentSchema>,
                         line: CommandLine, bigintToNumber: nat -> JsFloat)
    requires line.command.prefix in prefixes
    requires line.command.component in prefixes[line.command.prefix].subsystems
    requires line.command.component in components
    requires line.command.command in components[line.command.component].commands
    requires AllTypesListed(components[line.command.component].commands[line.command.command].parameters)
    ensures var r := Build(prefixes, components, line, bigintToNumber);
      r.Success? ==> forall i, j :: 0 <= i < j < |r.value.params| ==> r.value.params[i].name != r.value.params[j].name
  {
    var r := Build(prefixes, components, line, bigintToNumber);
    if r.Success? {
      var c := line.command;
      var hasTimeIndicator := prefixes[c.prefix].subsystems[c.component].hasTimeIndicator;
      var schemas := components[c.component].commands[c.command].parameters;
      var ps := line.parameters;
      var head := TimeIndicatorParams(hasTimeIndicator, ps);
      var slots := ConvertSlots(schemas, ps[..|schemas|], |schemas|, bigintToNumber);
      assert head.Success? && slots.Success? && r.value.params == head.value + slots.value;
      ConvertSlotsShape(schemas, ps[..|schemas|], |schemas|, bigintToNumber);
      DistinctNames(head.value, slots.value);
    }
  }

  /** The time indicator (if any) followed by `param1..paramN` has no repeated name. */
  lemma DistinctNames(head: seq<TcoParam>, slots: seq<TcoParam>)
    requires |head| <= 1 && (|head| == 1 ==> head[0].name == TimeIndicatorName)
    requires forall i :: 0 <= i < |slots| ==> slots[i].name == ParamName(i)
    ensures var ps := head + slots;
      forall i, j :: 0 <= i < j < |ps| ==> ps[i].name != ps[j].name
  {
    forall i, j | 0 <= i < j < |slots|
      ensures slots[i].name != slots[j].name
    {
      ParamNamesDistinct(i, j);
    }
    forall i | 0 <= i < |slots| && |head| == 1
      ensures slots[i].name != head[0].name
    {
      ParamNamesDistinct(i, i);
    }
    DistinctConcat(head, slots);
  }

  /** At most one leading parameter, named unlike every slot, keeps distinct
    * slot names distinct. */
  lemma DistinctConcat(head: seq<TcoParam>, slots: seq<TcoParam>)
    requires |head| <= 1
    requires forall i, j :: 0 <= i < j < |slots| ==> slots[i].name != slots[j].name
    requires forall i :: 0 <= i < |slots| && |head| == 1 ==> slots[i].name != head[0].name
    ensures var ps := head + slots;
      forall i, j :: 0 <= i < j < |ps| ==> ps[i].name != ps[j].name
  {
    var ps := head + slots;
    var extra := |head|;
    forall i, j | 0 <= i < j < |ps| ensures ps[i].name != ps[j].name {
      assert ps[j] == slots[j - extra];
      if i < extra {
        assert ps[i] == head[0];
      } else {
        assert ps[i] == slots[i - extra];
      }
    }
  }
}
