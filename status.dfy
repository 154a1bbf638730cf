/**
 * The gateway's operational status: the module-level `status` and `until` fields and the
 * `load` transition that sets them from the configuration and the persisted state.
 *
 * Reading the configuration and state files is outside the model: `load` receives what
 * each read produced, or that it threw.
 */
module Status {
  import opened Wrappers

  const Off: string := "off"
  const Decommissioned: string := "decommissioned"
  const TempOff: string := "tempoff"
  const Active: string := "active"

  /** A JSON value as JavaScript sees it after `JSON.parse`, or `undefined` for a missing
      key; arrays and objects are `Compound`. */
  datatype JsValue = Undefined | Null | Bool(b: bool) | Number(n: real) | Str(s: string) | Compound

  /** `!!v`. */
  predicate Truthy(v: JsValue) {
    match v
    case Undefined => false
    case Null => false
    case Bool(b) => b
    case Number(n) => n != 0.0
    case Str(s) => s != ""
    case Compound => true
  }

  /** The outcome of `config.load()` or `state.load()`: the data read, or a thrown error. */
  datatype FileRead<T> = Loaded(data: T) | Unreadable

  /** `config.data.status`, when it is a string. */
  datatype ConfigData = ConfigData(status: Option<string>)

  /** `state.data.status`, when it is a string, and `state.data.until`. */
  datatype StateData = StateData(status: Option<string>, until: JsValue)

  /** The fields after a `load`, and whether it threw. `until` holds the value the `Date`
      was built from. */
  datatype LoadOutcome = LoadOutcome(status: string, until: Option<JsValue>, thrown: bool)

  /** What `load` leaves behind when `status` was `prior` beforehand. */
  function LoadEffect(prior: string, config: FileRead<ConfigData>, state: FileRead<StateData>): (o: LoadOutcome)
    ensures o.until.Some? ==> o.status == TempOff && Truthy(o.until.value)
    ensures o.thrown ==> o.status == prior && o.until.None?
    ensures !o.thrown ==> o.status in {Off, Decommissioned, TempOff, Active}
  {
    if config.Unreadable? then LoadOutcome(prior, None, true)
    else if config.data.status == Some(Off) || config.data.status == Some(Decommissioned) then
      LoadOutcome(config.data.status.value, None, false)
    else if state.Unreadable? then LoadOutcome(prior, None, true)
    else if state.data.status == Some(TempOff) then
      LoadOutcome(TempOff, if Truthy(state.data.until) then Some(state.data.until) else None, false)
    else LoadOutcome(Active, None, false)
  }

  /** The `status` module's exported fields. */
  class OperationalStatus {
    var status: string
    var until: Option<JsValue>

    /** `until` is set only while temporarily off. */
    ghost predicate Valid()
      reads this
    {
      until.Some? ==> status == TempOff
    }

    /** The values the module starts with, before any `load`. */
    constructor ()
      ensures status == Off && until == None
      ensures Valid()
    {
      status := Off;
      until := None;
    }

    /** `load`: clear `until`, then take `off`/`decommissioned` from the configuration;
        otherwise consult the state, where `tempoff` wins (with its `until` when truthy);
        otherwise become `active`. A failed read throws with the fields as they are then. */
    method Load(config: FileRead<ConfigData>, state: FileRead<StateData>) returns (thrown: bool)
      modifies this
      ensures LoadOutcome(status, until, thrown) == LoadEffect(old(status), config, state)
      ensures Valid()
    {
      until := None;
      if config.Unreadable? {
        return true;
      }
      if config.data.status == Some(Off) || config.data.status == Some(Decommissioned) {
        status := config.data.status.value;
        return false;
      }
      if state.Unreadable? {
        return true;
      }
      if state.data.status == Some(TempOff) {
        status := TempOff;
        until := if Truthy(state.data.until) then Some(state.data.until) else None;
        return false;
      }
      status := Active;
      return false;
    }
  }

  /** `off` and `decommissioned` come from the configuration alone: the persisted state,
      readable or not, is not consulted. */
  lemma ConfigOffIgnoresState(prior: string, config: FileRead<ConfigData>, state1: FileRead<StateData>, state2: FileRead<StateData>)
    requires config.Loaded? && config.data.status.Some?
    requires config.data.status.value in {Off, Decommissioned}
    ensures LoadEffect(prior, config, state1) == LoadEffect(prior, config, state2)
    ensures LoadEffect(prior, config, state1) == LoadOutcome(config.data.status.value, None, false)
  {
  }

  /** Otherwise a persisted `tempoff` decides, with `until` kept only when truthy. */
  lemma StateTempOffWins(prior: string, config: FileRead<ConfigData>, state: FileRead<StateData>)
    requires config.Loaded? && !(config.data.status.Some? && config.data.status.value in {Off, Decommissioned})
    requires state.Loaded? && state.data.status == Some(TempOff)
    ensures LoadEffect(prior, config, state).status == TempOff
    ensures LoadEffect(prior, config, state).until.Some? <==> Truthy(state.data.until)
    ensures LoadEffect(prior, config, state).until == if Truthy(state.data.until) then Some(state.data.until) else None
  {
  }

  /** `load` throws exactly when the configuration cannot be read, or when it can, does
      not say `off` or `decommissioned`, and the state cannot be read; the status is then
      left as it was and `until` stays cleared. */
  lemma LoadThrowsIff(prior: string, config: FileRead<ConfigData>, state: FileRead<StateData>)
    ensures LoadEffect(prior, config, state).thrown <==>
              || config.Unreadable?
              || (!(config.data.status.Some? && config.data.status.value in {Off, Decommissioned}) && state.Unreadable?)
    ensures LoadEffect(prior, config, state).thrown ==>
              LoadEffect(prior, config, state).status == prior && LoadEffect(prior, config, state).until.None?
  {
  }

  /** In every remaining case that reads both files the status becomes `active` with no
      `until`. */
  lemma OtherwiseActive(prior: string, config: FileRead<ConfigData>, state: FileRead<StateData>)
    requires config.Loaded? && !(config.data.status.Some? && config.data.status.value in {Off, Decommissioned})
    requires state.Loaded? && state.data.status != Some(TempOff)
    ensures LoadEffect(prior, config, state) == LoadOutcome(Active, None, false)
  {
  }

  /** A load that reads both files does not depend on the status before it. */
  lemma LoadForgetsPrior(prior1: string, prior2: string, config: FileRead<ConfigData>, state: FileRead<StateData>)
    requires !LoadEffect(prior1, config, state).thrown
    ensures LoadEffect(prior1, config, state) == LoadEffect(prior2, config, state)
  {
  }
}
