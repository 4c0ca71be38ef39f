/** The plugin's configuration: `limit`, `welcomeMessage` and
    `welcomeMessageDelay`, read from the host's data object and defaulted with
    JavaScript's `||`. Configuration values are untyped in the host, so they
    are modelled as a small JavaScript value type; this makes the `||`
    defaulting, the strict `===` comparison against the limit and the
    `typeof … === 'string'` test on the greeting explicit. */
module Settings {

  /** A JavaScript value as it can appear in the host's data object.
      Numbers are integers here (fractions and NaN are not modelled). */
  datatype JsValue = Undefined | Null | Bool(b: bool) | Number(n: int) | Str(s: string) | Object

  /** JavaScript truthiness: `undefined`, `null`, `false`, `0` and `""` are
      falsy, everything else is truthy. */
  predicate Truthy(v: JsValue) {
    match v
    case Undefined => false
    case Null => false
    case Bool(b) => b
    case Number(n) => n != 0
    case Str(s) => |s| > 0
    case Object => true
  }

  /** The raw fields of the host's data object; a missing data object reads
      every field as `Undefined`. */
  datatype RawConfig = RawConfig(limit: JsValue, welcomeMessage: JsValue, welcomeMessageDelay: JsValue)

  /** The resolved settings the engine runs with. No invariant is imposed, so
      the engine's behaviour is modelled for any values, including ones the
      defaulting below cannot produce. */
  datatype Config = Config(limit: JsValue, welcomeMessage: JsValue, welcomeMessageDelay: JsValue)

  const DefaultLimit: int := 100
  const DefaultDelay: int := 3000

  /** `a || b` in JavaScript. */
  function Or(a: JsValue, b: JsValue): (r: JsValue)
    ensures Truthy(a) ==> r == a
    ensures !Truthy(a) ==> r == b
  {
    if Truthy(a) then a else b
  }

  /** Resolves the configuration: `limit || 100`, `welcomeMessage || undefined`,
      `welcomeMessageDelay || 3000`. */
  function Resolve(raw: RawConfig): (c: Config)
    ensures Truthy(c.limit) && Truthy(c.welcomeMessageDelay)
    ensures Truthy(raw.limit) ==> c.limit == raw.limit
    ensures !Truthy(raw.limit) ==> c.limit == Number(DefaultLimit)
    ensures c.limit == Number(DefaultLimit) <==> !Truthy(raw.limit) || raw.limit == Number(DefaultLimit)
    ensures Truthy(raw.welcomeMessage) ==> c.welcomeMessage == raw.welcomeMessage
    ensures !Truthy(raw.welcomeMessage) ==> c.welcomeMessage == Undefined
    ensures Truthy(raw.welcomeMessageDelay) ==> c.welcomeMessageDelay == raw.welcomeMessageDelay
    ensures !Truthy(raw.welcomeMessageDelay) ==> c.welcomeMessageDelay == Number(DefaultDelay)
  {
    Config(
      Or(raw.limit, Number(DefaultLimit)),
      Or(raw.welcomeMessage, Undefined),
      Or(raw.welcomeMessageDelay, Number(DefaultDelay)))
  }

  /** The eviction test `manager.count() === limit`: strict equality, so only
      a numeric limit equal to the count triggers it. */
  predicate AtLimit(count: nat, limit: JsValue) {
    limit.Number? && limit.n == count
  }

  /** The greeting test `welcomeMessage && typeof welcomeMessage === 'string'`. */
  predicate Greets(c: Config) {
    Truthy(c.welcomeMessage) && c.welcomeMessage.Str?
  }

  /** A greeting is configured exactly when the message is a non-empty string. */
  lemma GreetsIffNonEmptyText(c: Config)
    ensures Greets(c) <==> c.welcomeMessage.Str? && |c.welcomeMessage.s| > 0
  {
  }

  /** A resolved limit is never zero, and a limit that is not a number never
      equals any count. */
  lemma ResolvedLimit(raw: RawConfig, count: nat)
    ensures Resolve(raw).limit != Number(0)
    ensures !AtLimit(0, Resolve(raw).limit)
    ensures !Resolve(raw).limit.Number? ==> !AtLimit(count, Resolve(raw).limit)
  {
  }
}
