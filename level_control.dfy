/** The logger's levels: the default level fixed at construction from the
    environment, and the level the periodic metadata check sets from the
    end time it reads. */
module LevelControl {
  import opened JsStrings
  import opened JsParseInt

  const TRACE := "trace"
  const PRODUCTION := "production"

  /** `(NODE_ENV || '').toLowerCase() === 'production'`; an unset variable is
      None. */
  predicate IsProduction(nodeEnv: Option<string>)
    ensures IsProduction(nodeEnv) ==> nodeEnv.Some? && |nodeEnv.value| == |PRODUCTION|
  {
    var text := if nodeEnv.Some? then nodeEnv.value else "";
    ToLowerAscii(text) == PRODUCTION
  }

  /** `LOG_LEVEL || (isProduction ? "warn" : "debug")`: an empty LOG_LEVEL
      counts as unset. */
  function DefaultLevel(nodeEnv: Option<string>, logLevel: Option<string>): (level: string)
    ensures level != ""
    ensures logLevel.Some? && logLevel.value != "" ==> level == logLevel.value
    ensures (logLevel.None? || logLevel.value == "") ==>
      (level == "warn" <==> IsProduction(nodeEnv)) && (level == "debug" <==> !IsProduction(nodeEnv))
  {
    if logLevel.Some? && logLevel.value != "" then logLevel.value
    else if IsProduction(nodeEnv) then "warn"
    else "debug"
  }

  /** The production test ignores the case of ASCII letters: a value is
      production exactly when it spells "production" letter by letter up to
      case. */
  lemma ProductionIgnoresCase(nodeEnv: Option<string>)
    ensures IsProduction(nodeEnv) <==>
      nodeEnv.Some? && |nodeEnv.value| == |PRODUCTION|
      && forall i :: 0 <= i < |PRODUCTION| ==> LowerChar(nodeEnv.value[i]) == PRODUCTION[i]
  {
    if nodeEnv.Some? && |nodeEnv.value| == |PRODUCTION|
      && forall i :: 0 <= i < |PRODUCTION| ==> LowerChar(nodeEnv.value[i]) == PRODUCTION[i] {
      assert ToLowerAscii(nodeEnv.value) == PRODUCTION;
    }
  }

  lemma ProductionExamples()
    ensures IsProduction(Some("PRODUCTION"))
    ensures !IsProduction(None)
    ensures !IsProduction(Some("prod"))
  {
    UpperCaseProduction();
    assert |ToLowerAscii("")| == 0 && |ToLowerAscii("prod")| == 4;
  }

  lemma UpperCaseProduction()
    ensures IsProduction(Some("PRODUCTION"))
  {
    var upper := "PRODUCTION";
    assert forall i :: 0 <= i < |PRODUCTION| ==> LowerChar(upper[i]) == PRODUCTION[i] by {
      assert LowerChar('P') == 'p' && LowerChar('R') == 'r' && LowerChar('O') == 'o';
      assert LowerChar('D') == 'd' && LowerChar('U') == 'u' && LowerChar('C') == 'c';
      assert LowerChar('T') == 't' && LowerChar('I') == 'i' && LowerChar('N') == 'n';
    }
    ProductionIgnoresCase(Some(upper));
  }

  /** What `parseInt(body)` is given: the body, or undefined when the request
      failed, which converts to the text "undefined". */
  function BodyText(body: Option<string>): string {
    if body.Some? then body.value else "undefined"
  }

  /** The level the metadata check sets: trace while the end time in the
      body is still ahead of `now`, the default level otherwise, including
      when the body does not parse or is missing. */
  function LevelAfterCheck(body: Option<string>, now: int, defaultLevel: string): (level: string)
    ensures level == TRACE || level == defaultLevel
    ensures level == TRACE && defaultLevel != TRACE ==> ParseInt(BodyText(body)).Int?
  {
    match ParseInt(BodyText(body))
    case Int(endTime) => if endTime > now then TRACE else defaultLevel
    case NaN => defaultLevel
  }

  /** A body holding a millisecond end time written in decimal switches to
      trace exactly while the end time is later than now. */
  lemma CheckReadsEndTime(endTime: int, now: int, defaultLevel: string)
    ensures LevelAfterCheck(Some(IntToDecimal(endTime)), now, defaultLevel)
         == if endTime > now then TRACE else defaultLevel
  {
    ParseIntRoundTrip("", endTime, "");
    assert "" + IntToDecimal(endTime) + "" == IntToDecimal(endTime);
  }

  /** A failed request (no body) or a body without digits resets the level to
      the default. */
  lemma UnreadableBodyResets(body: Option<string>, now: int, defaultLevel: string)
    requires body.None? || ParseInt(body.value) == NaN
    ensures LevelAfterCheck(body, now, defaultLevel) == defaultLevel
  {
    if body.None? {
      ParseIntOfUndefined();
    }
  }

  /** A body that is not a number resets the level to the default. */
  lemma GarbageBodyResets(now: int, defaultLevel: string)
    ensures LevelAfterCheck(Some("none"), now, defaultLevel) == defaultLevel
  {
    assert !IsStrWhiteSpace('n');
    assert TrimStart("none") == "none";
    ParseIntNoDigits("none");
  }

  function Pow10(k: nat): nat {
    if k == 0 then 1 else 10 * Pow10(k - 1)
  }

  /** The decimal text of 10^k - 1 is k nines. */
  lemma {:induction false} NinesText(k: nat)
    requires k >= 1
    ensures Pow10(k) >= 10
    ensures NatToDecimal(Pow10(k) - 1) == seq(k, _ => '9')
  {
    if k > 1 {
      NinesText(k - 1);
      var n := Pow10(k) - 1;
      assert n / 10 == Pow10(k - 1) - 1 && n % 10 == 9;
      assert NatToDecimal(n) == seq(k - 1, _ => '9') + ['9'];
    } else {
      assert NatToDecimal(9) == ['9'];
    }
  }

  /** A far-future end time gives trace, a past one the default. */
  lemma FarFutureAndPastBodies(now: int, defaultLevel: string)
    requires 1 < now < 9999999999999
    ensures LevelAfterCheck(Some("9999999999999"), now, defaultLevel) == TRACE
    ensures LevelAfterCheck(Some("1"), now, defaultLevel) == defaultLevel
  {
    NinesText(13);
    assert Pow10(13) - 1 == 9999999999999;
    assert seq(13, _ => '9') == "9999999999999";
    CheckReadsEndTime(9999999999999, now, defaultLevel);
    assert IntToDecimal(1) == "1";
    CheckReadsEndTime(1, now, defaultLevel);
  }
}
