/**
 * The dialog timeout read from the MCP_DIALOG_TIMEOUT environment variable
 * when the server module loads.
 */
module Config {
  import opened Base
  import opened PyText

  const DefaultDialogTimeout: int := 300
  const MaxDialogTimeout: int := 86400

  /**
   * DIALOG_TIMEOUT for a given environment: `env` is the variable's value, `None`
   * when it is unset (the default 300 is then passed to `int` as a number).
   * An unparsable value falls back to the default; a value above 24 hours is
   * cut to 24 hours; anything else, zero and negative values included, is kept.
   * The value is one `str()` can always print.
   */
  function DialogTimeout(env: Option<string>): (t: int)
    ensures t <= MaxDialogTimeout
    ensures env.None? ==> t == DefaultDialogTimeout
    ensures env.Some? && ParseInt(env.value).None? ==> t == DefaultDialogTimeout
    ensures env.Some? && ParseInt(env.value).Some? && ParseInt(env.value).value <= MaxDialogTimeout ==>
      t == ParseInt(env.value).value
    ensures env.Some? && ParseInt(env.value).Some? && ParseInt(env.value).value > MaxDialogTimeout ==>
      t == MaxDialogTimeout
    ensures |NatDecimal(Abs(t))| <= MaxStrDigits
  {
    assert NatDecimal(DefaultDialogTimeout) == "300" && NatDecimal(MaxDialogTimeout) == "86400";
    match env
    case None => DefaultDialogTimeout
    case Some(s) =>
      ParseIntBound(s);
      match ParseInt(s)
      case None => DefaultDialogTimeout
      case Some(n) => if n > MaxDialogTimeout then MaxDialogTimeout else n
  }

  /**
   * Setting the variable to the decimal form of `n` configures `min(n, 86400)`,
   * or the default when `n` has more digits than `int()` reads.
   */
  lemma DialogTimeoutOfDecimal(n: int)
    ensures |NatDecimal(Abs(n))| <= MaxStrDigits ==>
      DialogTimeout(Some(IntDecimal(n))) == if n > MaxDialogTimeout then MaxDialogTimeout else n
    ensures |NatDecimal(Abs(n))| > MaxStrDigits ==> DialogTimeout(Some(IntDecimal(n))) == DefaultDialogTimeout
  {
    IntDecimalRoundTrip(n);
  }

  /** A blank setting cannot be parsed and gives the default. */
  lemma DialogTimeoutOfBlank(s: string)
    requires AllSpace(s)
    ensures DialogTimeout(Some(s)) == DefaultDialogTimeout
  {
    ParseIntRejectsBlank(s);
  }

  /** Clamping is idempotent: feeding the configured value back in changes nothing. */
  lemma DialogTimeoutIdempotent(env: Option<string>)
    ensures DialogTimeout(Some(IntDecimal(DialogTimeout(env)))) == DialogTimeout(env)
  {
    DialogTimeoutOfDecimal(DialogTimeout(env));
  }
}
