/** The continual-learning stop hook (plugins/teamshared/hooks/continual-learning-stop.ts):
    a persisted counter that emits a follow-up at most once per so many turns and minutes.
    Numbers are reals. A load can fail or come back empty; a save stores the whole state or
    throws, and one that throws can leave the old state, the new one (the response of the
    remote backend was lost) or a truncated file. */
module Cadence {
  import opened Wrappers
  import Decimal

  // ---- environment ----

  predicate IsSpace(c: char) {
    || c == ' ' || '\t' <= c <= '\r' || c == '\U{A0}' || c == '\U{FEFF}' || c == '\U{2028}' || c == '\U{2029}'
    || c == '\U{1680}' || '\U{2000}' <= c <= '\U{200A}' || c == '\U{202F}' || c == '\U{205F}' || c == '\U{3000}'
  }

  predicate IsDigit(c: char) {
    '0' <= c <= '9'
  }

  /** The white space and line terminators of ECMAScript. */
  lemma WhiteSpaceCharacters(c: char)
    ensures IsSpace(c) <==>
            c in {'\U{9}', '\U{A}', '\U{B}', '\U{C}', '\U{D}', '\U{20}', '\U{A0}', '\U{1680}', '\U{2000}', '\U{2001}',
                  '\U{2002}', '\U{2003}', '\U{2004}', '\U{2005}', '\U{2006}', '\U{2007}', '\U{2008}', '\U{2009}',
                  '\U{200A}', '\U{2028}', '\U{2029}', '\U{202F}', '\U{205F}', '\U{3000}', '\U{FEFF}'}
  {
  }

  function SkipSpace(s: string): string {
    if s != "" && IsSpace(s[0]) then SkipSpace(s[1..]) else s
  }

  function LeadingDigits(s: string): (n: nat)
    ensures n <= |s| && forall i :: 0 <= i < n ==> IsDigit(s[i])
  {
    if s != "" && IsDigit(s[0]) then 1 + LeadingDigits(s[1..]) else 0
  }

  /** The nearest double of an integer; None stands for an infinity. */
  type Rounding = int -> Option<int>

  const EXACT: int := 9_007_199_254_740_992  // 2 to the 53rd

  /** Doubles hold the integers up to 2^53 exactly and keep larger ones at least that large. */
  ghost predicate IsDouble(round: Rounding) {
    forall n :: RoundsWell(round, n)
  }

  ghost predicate RoundsWell(round: Rounding, n: int) {
    && (-EXACT <= n <= EXACT ==> round(n) == Some(n))
    && (n > EXACT && round(n).Some? ==> round(n).value >= EXACT)
    && (n < -EXACT && round(n).Some? ==> round(n).value <= -EXACT)
  }

  /** Number.parseInt(s, 10), None for NaN and for what is not finite. */
  function ParseInt(s: string, round: Rounding): Option<int> {
    var t := SkipSpace(s);
    var signed := t != "" && (t[0] == '+' || t[0] == '-');
    var digits := if signed then t[1..] else t;
    var n := LeadingDigits(digits);
    if n == 0 then None
    else
      var value: int := Decimal.Value(digits[..n]);
      round(if signed && t[0] == '-' then -value else value)
  }

  function ParsePositiveInt(value: Option<string>, fallback: int, round: Rounding): int {
    if value.None? || value.value == "" then fallback
    else
      match ParseInt(value.value, round)
      case Some(n) => if n <= 0 then fallback else n
      case None => fallback
  }

  lemma {:induction false} NumeralIsAllDigits(n: nat)
    ensures forall i :: 0 <= i < |Decimal.ToString(n)| ==> IsDigit(Decimal.ToString(n)[i])
    decreases n
  {
    if n >= 10 {
      NumeralIsAllDigits(n / 10);
    }
  }

  lemma {:induction false} AllDigitsLead(s: string)
    requires forall i :: 0 <= i < |s| ==> IsDigit(s[i])
    ensures LeadingDigits(s) == |s|
    decreases |s|
  {
    if s != "" {
      AllDigitsLead(s[1..]);
    }
  }

  lemma {:induction false} DigitsParse(s: string, round: Rounding)
    requires s != "" && forall i :: 0 <= i < |s| ==> IsDigit(s[i])
    ensures ParseInt(s, round) == round(Decimal.Value(s))
  {
    assert IsDigit(s[0]);
    assert SkipSpace(s) == s;
    AllDigitsLead(s);
    assert s[..|s|] == s;
  }

  lemma {:induction false} NumeralParses(n: nat, round: Rounding)
    ensures ParseInt(Decimal.ToString(n), round) == round(n)
  {
    NumeralIsAllDigits(n);
    Decimal.ValueOfToString(n);
    DigitsParse(Decimal.ToString(n), round);
  }

  /** A positive numeral is read as its nearest double, and exactly up to 2^53; one that is
      too large for a finite double counts as unset. */
  lemma {:induction false} ParsePositiveIntReadsNumerals(n: nat, fallback: int, round: Rounding)
    requires IsDouble(round)
    ensures ParsePositiveInt(Some(Decimal.ToString(n)), fallback, round)
            == if n == 0 || round(n).None? then fallback else round(n).value
    ensures 0 < n <= EXACT ==> ParsePositiveInt(Some(Decimal.ToString(n)), fallback, round) == n
  {
    NumeralParses(n, round);
    assert RoundsWell(round, n);
  }

  lemma {:induction false} SpacesAreSkipped(spaces: string, rest: string)
    requires forall i :: 0 <= i < |spaces| ==> IsSpace(spaces[i])
    requires rest == "" || !IsSpace(rest[0])
    ensures SkipSpace(spaces + rest) == rest
    decreases |spaces|
  {
    if spaces == "" {
      assert spaces + rest == rest;
    } else {
      assert (spaces + rest)[1..] == spaces[1..] + rest;
      SpacesAreSkipped(spaces[1..], rest);
    }
  }

  lemma {:induction false} DigitsAreTaken(digits: string, rest: string)
    requires forall i :: 0 <= i < |digits| ==> IsDigit(digits[i])
    requires rest == "" || !IsDigit(rest[0])
    ensures LeadingDigits(digits + rest) == |digits|
    decreases |digits|
  {
    if digits == "" {
      assert digits + rest == rest;
    } else {
      assert (digits + rest)[1..] == digits[1..] + rest;
      DigitsAreTaken(digits[1..], rest);
    }
  }

  /** parseInt skips leading space, takes one sign and as many decimal digits as there are, and
      ignores what follows; without a digit it is not a number. */
  lemma {:induction false} ParseIntReadsThePrefix(spaces: string, sign: string, digits: string, rest: string,
                                                  round: Rounding)
    requires forall i :: 0 <= i < |spaces| ==> IsSpace(spaces[i])
    requires sign == "" || sign == "+" || sign == "-"
    requires forall i :: 0 <= i < |digits| ==> '0' <= digits[i] <= '9'
    requires rest == "" || !('0' <= rest[0] <= '9')
    requires sign + digits == "" && rest != "" ==> !IsSpace(rest[0]) && rest[0] != '+' && rest[0] != '-'
    ensures ParseInt(spaces + (sign + (digits + rest)), round)
            == if digits == "" then None
               else round(if sign == "-" then -(Decimal.Value(digits) as int) else Decimal.Value(digits))
  {
    var t := sign + (digits + rest);
    SignIsTaken(sign, digits, rest);
    NumberIsRead(digits, rest);
    assert SkipSpace(spaces + t) == t by {
      SpacesAreSkipped(spaces, t);
    }
    SignedNumberIsRead(spaces + t, t, sign, digits, digits + rest, round);
  }

  lemma {:induction false} SignedNumberIsRead(s: string, t: string, sign: string, digits: string, tail: string,
                                              round: Rounding)
    requires SkipSpace(s) == t && LeadingDigits(tail) == |digits| && tail[..|digits|] == digits
    requires sign == "" || sign == "+" || sign == "-"
    requires if sign == "" then t == tail && (tail != "" ==> tail[0] != '+' && tail[0] != '-')
             else t != "" && t[0] == sign[0] && t[1..] == tail
    ensures ParseInt(s, round)
            == if digits == "" then None
               else round(if sign == "-" then -(Decimal.Value(digits) as int) else Decimal.Value(digits))
  {
  }

  lemma SignIsTaken(sign: string, digits: string, rest: string)
    requires sign == "" || sign == "+" || sign == "-"
    ensures var t := sign + (digits + rest);
            && (sign == "" ==> t == digits + rest)
            && (sign != "" ==> t != "" && t[0] == sign[0] && t[1..] == digits + rest)
  {
  }

  lemma {:induction false} NumberIsRead(digits: string, rest: string)
    requires forall i :: 0 <= i < |digits| ==> IsDigit(digits[i])
    requires rest == "" || !IsDigit(rest[0])
    ensures LeadingDigits(digits + rest) == |digits| && (digits + rest)[..|digits|] == digits
    ensures digits + rest != "" ==> (digits + rest)[0] == (if digits == "" then rest[0] else digits[0])
    ensures digits != "" ==> !IsSpace(digits[0]) && digits[0] != '+' && digits[0] != '-'
  {
    DigitsAreTaken(digits, rest);
    assert digits != "" ==> IsDigit(digits[0]);
  }

  /** A threshold that is missing, empty, not a number, infinite or not positive takes its
      fallback; any other stands. */
  lemma PositiveIntOrFallback(value: Option<string>, fallback: int, round: Rounding)
    ensures value == None || value == Some("") ==> ParsePositiveInt(value, fallback, round) == fallback
    ensures forall text, n :: value == Some(text) && text != "" && ParseInt(text, round) == Some(n) ==>
              ParsePositiveInt(value, fallback, round) == if n > 0 then n else fallback
    ensures forall text :: value == Some(text) && ParseInt(text, round) == None ==>
              ParsePositiveInt(value, fallback, round) == fallback
  {
  }

  datatype Config = Config(
    trialEnabled: bool, trialDurationMinutes: int, trialMinTurns: int, trialMinMinutes: int,
    minTurns: int, minMinutes: int)

  /** process.env[primary] ?? process.env[legacy], the two names sharing a suffix. */
  function Setting(env: map<string, string>, suffix: string): Option<string> {
    if "CONTINUAL_LEARNING_" + suffix in env then Some(env["CONTINUAL_LEARNING_" + suffix])
    else if "CONTINUOUS_LEARNING_" + suffix in env then Some(env["CONTINUOUS_LEARNING_" + suffix])
    else None
  }

  function ReadConfig(env: map<string, string>, trialEnabled: bool, round: Rounding): Config {
    Config(
      trialEnabled,
      ParsePositiveInt(Setting(env, "TRIAL_DURATION_MINUTES"), 24 * 60, round),
      ParsePositiveInt(Setting(env, "TRIAL_MIN_TURNS"), 3, round),
      ParsePositiveInt(Setting(env, "TRIAL_MIN_MINUTES"), 15, round),
      ParsePositiveInt(Setting(env, "MIN_TURNS"), 10, round),
      ParsePositiveInt(Setting(env, "MIN_MINUTES"), 120, round))
  }

  /** A value of the current name counts, even an unusable one; the legacy name is read only when
      the current one is not set. */
  lemma CurrentNameWins(env: map<string, string>, suffix: string)
    ensures "CONTINUAL_LEARNING_" + suffix in env ==>
              Setting(env, suffix) == Some(env["CONTINUAL_LEARNING_" + suffix])
    ensures "CONTINUAL_LEARNING_" + suffix !in env && "CONTINUOUS_LEARNING_" + suffix in env ==>
              Setting(env, suffix) == Some(env["CONTINUOUS_LEARNING_" + suffix])
    ensures "CONTINUAL_LEARNING_" + suffix !in env && "CONTINUOUS_LEARNING_" + suffix !in env ==>
              Setting(env, suffix) == None
  {
  }

  /** With nothing set: a trial of a day with three turns and fifteen minutes, and ten turns and
      two hours otherwise; a setting moves the threshold of its name and no other. */
  lemma DefaultsAndNames(env: map<string, string>, trialEnabled: bool, round: Rounding)
    ensures ReadConfig(map[], trialEnabled, round) == Config(trialEnabled, 1440, 3, 15, 10, 120)
    ensures var c := ReadConfig(env, trialEnabled, round);
            && c.trialEnabled == trialEnabled
            && c.trialDurationMinutes == ParsePositiveInt(Setting(env, "TRIAL_DURATION_MINUTES"), 1440, round)
            && c.trialMinTurns == ParsePositiveInt(Setting(env, "TRIAL_MIN_TURNS"), 3, round)
            && c.trialMinMinutes == ParsePositiveInt(Setting(env, "TRIAL_MIN_MINUTES"), 15, round)
            && c.minTurns == ParsePositiveInt(Setting(env, "MIN_TURNS"), 10, round)
            && c.minMinutes == ParsePositiveInt(Setting(env, "MIN_MINUTES"), 120, round)
  {
  }

  // ---- persisted state ----

  /** Any stored JSON value, where a number is None when it is not finite, or a text that is
      not JSON. */
  datatype Raw = Null | Num(n: Option<real>) | Str(s: string) | Obj(fields: map<string, Raw>) | Other | Unparsable

  datatype State = State(
    lastRunAtMs: real, turnsSinceLastRun: real, lastTranscriptMtimeMs: Option<real>,
    lastProcessedGenerationId: Option<string>, trialStartedAtMs: Option<real>)

  const DEFAULT_STATE: State := State(0.0, 0.0, None, None, None)

  function FiniteField(fields: map<string, Raw>, name: string): Option<real> {
    if name in fields && fields[name].Num? then fields[name].n else None
  }

  function ParseCadenceState(raw: Raw): State {
    if !raw.Obj? || FiniteField(raw.fields, "version") != Some(1.0) then DEFAULT_STATE
    else
      var f := raw.fields;
      var lastRun, turns := FiniteField(f, "lastRunAtMs"), FiniteField(f, "turnsSinceLastRun");
      State(
        if lastRun.Some? then lastRun.value else 0.0,
        if turns.Some? && turns.value >= 0.0 then turns.value else 0.0,
        FiniteField(f, "lastTranscriptMtimeMs"),
        if "lastProcessedGenerationId" in f && f["lastProcessedGenerationId"].Str?
        then Some(f["lastProcessedGenerationId"].s) else None,
        FiniteField(f, "trialStartedAtMs"))
  }

  function NumOrNull(x: Option<real>): Raw {
    if x.Some? then Num(x) else Null
  }

  /** JSON.stringify(state), read back. */
  function Stored(s: State): Raw {
    Obj(map[
      "version" := Num(Some(1.0)),
      "lastRunAtMs" := Num(Some(s.lastRunAtMs)),
      "turnsSinceLastRun" := Num(Some(s.turnsSinceLastRun)),
      "lastTranscriptMtimeMs" := NumOrNull(s.lastTranscriptMtimeMs),
      "lastProcessedGenerationId" :=
        (if s.lastProcessedGenerationId.Some? then Str(s.lastProcessedGenerationId.value) else Null),
      "trialStartedAtMs" := NumOrNull(s.trialStartedAtMs)])
  }

  /** What a save stores is what the next load parses, exactly for a turn count that is not
      negative; whatever is stored, a load yields such a count. */
  lemma StoredStateParsesBack(s: State, raw: Raw)
    ensures ParseCadenceState(Stored(s)) == s <==> s.turnsSinceLastRun >= 0.0
    ensures ParseCadenceState(raw).turnsSinceLastRun >= 0.0
  {
    FieldNamesDiffer(s);
  }

  predicate At(raw: Raw, name: string, value: Raw) {
    raw.Obj? && name in raw.fields && raw.fields[name] == value
  }

  /** What is not an object of version 1 is read as the default state. */
  lemma OtherVersionsAreForgotten(raw: Raw)
    requires !At(raw, "version", Num(Some(1.0)))
    ensures ParseCadenceState(raw) == State(0.0, 0.0, None, None, None)
  {
  }

  /** An object of version 1 is read field by field: each stands for itself when it holds a value
      of its type, and on its own falls back when it does not; so do negative turns. */
  lemma FieldsAreReadApart(raw: Raw, x: real, g: string)
    requires At(raw, "version", Num(Some(1.0)))
    ensures At(raw, "lastRunAtMs", Num(Some(x))) ==> ParseCadenceState(raw).lastRunAtMs == x
    ensures x != 0.0 && !At(raw, "lastRunAtMs", Num(Some(x))) ==> ParseCadenceState(raw).lastRunAtMs != x
    ensures x >= 0.0 && At(raw, "turnsSinceLastRun", Num(Some(x))) ==> ParseCadenceState(raw).turnsSinceLastRun == x
    ensures x != 0.0 && !(x >= 0.0 && At(raw, "turnsSinceLastRun", Num(Some(x)))) ==>
              ParseCadenceState(raw).turnsSinceLastRun != x
    ensures ParseCadenceState(raw).lastTranscriptMtimeMs == Some(x)
            <==> At(raw, "lastTranscriptMtimeMs", Num(Some(x)))
    ensures ParseCadenceState(raw).lastProcessedGenerationId == Some(g)
            <==> At(raw, "lastProcessedGenerationId", Str(g))
    ensures ParseCadenceState(raw).trialStartedAtMs == Some(x) <==> At(raw, "trialStartedAtMs", Num(Some(x)))
  {
  }

  lemma FieldNamesDiffer(s: State)
    ensures var f := Stored(s).fields;
            && f["version"] == Num(Some(1.0)) && f["lastRunAtMs"] == Num(Some(s.lastRunAtMs))
            && f["turnsSinceLastRun"] == Num(Some(s.turnsSinceLastRun))
            && f["lastTranscriptMtimeMs"] == NumOrNull(s.lastTranscriptMtimeMs)
            && f["lastProcessedGenerationId"] ==
                 (if s.lastProcessedGenerationId.Some? then Str(s.lastProcessedGenerationId.value) else Null)
            && f["trialStartedAtMs"] == NumOrNull(s.trialStartedAtMs)
  {
    assert "version"[0] == 'v' && "lastRunAtMs"[4] == 'R' && "turnsSinceLastRun"[1] == 'u';
    assert "lastTranscriptMtimeMs"[4] == 'T' && "lastProcessedGenerationId"[4] == 'P' && "trialStartedAtMs"[1] == 'r';
  }

  // ---- the hook ----

  /** One stop event with everything main reads besides the stored state. */
  datatype Event = Event(
    generation: Option<string>, completed: bool, loopCount: int,
    now: real, transcriptMtime: Option<real>, config: Config)

  predicate IsDuplicate(s: State, e: Event) {
    e.generation.Some? && e.generation.value != "" && s.lastProcessedGenerationId == e.generation
  }

  predicate ShouldCountTurn(e: Event) {
    e.completed && e.loopCount == 0
  }

  function Turns(s: State, e: Event): real {
    s.turnsSinceLastRun + if ShouldCountTurn(e) then 1.0 else 0.0
  }

  function TrialStart(s: State, e: Event): Option<real> {
    if e.config.trialEnabled && ShouldCountTurn(e) && s.trialStartedAtMs.None? then Some(e.now) else s.trialStartedAtMs
  }

  predicate InTrial(s: State, e: Event) {
    && e.config.trialEnabled && TrialStart(s, e).Some?
    && e.now - TrialStart(s, e).value < (e.config.trialDurationMinutes * 60_000) as real
  }

  function EffectiveMinTurns(s: State, e: Event): int {
    if InTrial(s, e) then e.config.trialMinTurns else e.config.minTurns
  }

  function EffectiveMinMinutes(s: State, e: Event): int {
    if InTrial(s, e) then e.config.trialMinMinutes else e.config.minMinutes
  }

  predicate EnoughMinutes(s: State, e: Event) {
    s.lastRunAtMs > 0.0 ==> ((e.now - s.lastRunAtMs) / 60_000.0).Floor >= EffectiveMinMinutes(s, e)
  }

  predicate TranscriptAdvanced(s: State, e: Event) {
    && e.transcriptMtime.Some?
    && (s.lastTranscriptMtimeMs.None? || e.transcriptMtime.value > s.lastTranscriptMtimeMs.value)
  }

  predicate ShouldTrigger(s: State, e: Event) {
    && ShouldCountTurn(e)
    && Turns(s, e) >= EffectiveMinTurns(s, e) as real
    && EnoughMinutes(s, e)
    && TranscriptAdvanced(s, e)
  }

  /** The state main tries to save for an event that is not a duplicate. */
  function NextState(s: State, e: Event): State {
    var counted := s.(lastProcessedGenerationId := e.generation, trialStartedAtMs := TrialStart(s, e));
    if ShouldTrigger(s, e)
    then counted.(lastRunAtMs := e.now, turnsSinceLastRun := 0.0, lastTranscriptMtimeMs := e.transcriptMtime)
    else counted.(turnsSinceLastRun := Turns(s, e))
  }

  /** How a load ends: with what is stored, with nothing (a refused request, an unreadable
      file), which main takes for the default state, or with an exception. */
  datatype Load = Loaded | LoadedNothing | LoadThrew

  /** How a save ends: stored, thrown with nothing stored, stored and thrown all the same, or
      thrown with a truncated file left behind. */
  datatype Save = Saved | NotStored | StoredThenThrew | Torn

  function AfterSave(raw: Raw, s: State, save: Save): Raw {
    match save
    case NotStored => raw
    case Torn => Unparsable
    case _ => Stored(s)
  }

  /** The state main works with. */
  function Seen(raw: Raw, load: Load): State {
    if load.Loaded? then ParseCadenceState(raw) else DEFAULT_STATE
  }

  /** Main comes to its save. */
  predicate Reaches(raw: Raw, e: Event, load: Load) {
    !load.LoadThrew? && !IsDuplicate(Seen(raw, load), e)
  }

  /** Stored value and emission after one event. */
  function Stop(raw: Raw, e: Event, load: Load, save: Save): (Raw, bool) {
    var s := Seen(raw, load);
    if Reaches(raw, e, load)
    then (AfterSave(raw, NextState(s, e), save), ShouldTrigger(s, e) && save.Saved?)
    else (raw, false)
  }

  /** An event that is no duplicate (its generation is missing, empty, or not the one processed
      last) stores the generation and the start of the trial; a follow-up records its time and
      transcript and takes the turns back to zero, anything else only adds the turn it counts. */
  lemma EventOutcome(s: State, e: Event)
    requires s.turnsSinceLastRun >= 0.0
    requires e.generation == None || e.generation == Some("") || e.generation != s.lastProcessedGenerationId
    ensures var (stored, emitted) := Stop(Stored(s), e, Loaded, Saved);
            var counts := e.completed && e.loopCount == 0;
            var start := if e.config.trialEnabled && counts && s.trialStartedAtMs.None?
                         then Some(e.now) else s.trialStartedAtMs;
            && (emitted <==> ShouldTrigger(s, e))
            && ParseCadenceState(stored)
               == if emitted then State(e.now, 0.0, e.transcriptMtime, e.generation, start)
                  else State(s.lastRunAtMs, s.turnsSinceLastRun + (if counts then 1.0 else 0.0),
                             s.lastTranscriptMtimeMs, e.generation, start)
  {
    StoredStateParsesBack(s, Null);
    StoredStateParsesBack(NextState(s, e), Null);
  }

  class Hook {
    var stored: Raw

    constructor (stored: Raw)
      ensures this.stored == stored
    {
      this.stored := stored;
    }

    /** saveCadence; false stands for the exception that main catches. */
    method SaveCadence(s: State, save: Save) returns (ok: bool)
      modifies this
      ensures ok == save.Saved? && stored == AfterSave(old(stored), s, save)
    {
      match save {
        case NotStored =>
        case Torn => stored := Unparsable;
        case _ => stored := Stored(s);
      }
      ok := save.Saved?;
    }

    /** main, from loading the state to the emission of a follow-up message. */
    method OnStop(e: Event, load: Load, save: Save) returns (emitted: bool)
      modifies this
      ensures (stored, emitted) == Stop(old(stored), e, load, save)
    {
      if load.LoadThrew? {
        return false;
      }
      var state := if load.Loaded? then ParseCadenceState(stored) else DEFAULT_STATE;
      emitted := OnLoaded(state, e, save);
    }

    /** main once the state is loaded. */
    method OnLoaded(loaded: State, e: Event, save: Save) returns (emitted: bool)
      modifies this
      ensures (stored, emitted) == if IsDuplicate(loaded, e) then (old(stored), false)
                                   else (AfterSave(old(stored), NextState(loaded, e), save),
                                         ShouldTrigger(loaded, e) && save.Saved?)
    {
      var state := loaded;
      if e.generation.Some? && e.generation.value != "" && e.generation == state.lastProcessedGenerationId {
        return false;
      }
      state := state.(lastProcessedGenerationId := e.generation);
      var countedTurn := ShouldCountTurn(e);
      var turnsSinceLastRun := state.turnsSinceLastRun + if countedTurn then 1.0 else 0.0;
      if e.config.trialEnabled && countedTurn && state.trialStartedAtMs.None? {
        state := state.(trialStartedAtMs := Some(e.now));
      }
      var inTrialWindow := e.config.trialEnabled && state.trialStartedAtMs.Some?
                           && e.now - state.trialStartedAtMs.value < (e.config.trialDurationMinutes * 60_000) as real;
      var effectiveMinTurns := if inTrialWindow then e.config.trialMinTurns else e.config.minTurns;
      var effectiveMinMinutes := if inTrialWindow then e.config.trialMinMinutes else e.config.minMinutes;
      var enoughMinutes := state.lastRunAtMs <= 0.0
                           || ((e.now - state.lastRunAtMs) / 60_000.0).Floor >= effectiveMinMinutes;
      var hasTranscriptAdvanced := e.transcriptMtime.Some?
        && (state.lastTranscriptMtimeMs.None? || e.transcriptMtime.value > state.lastTranscriptMtimeMs.value);
      if countedTurn && turnsSinceLastRun >= effectiveMinTurns as real && enoughMinutes && hasTranscriptAdvanced {
        state := state.(lastRunAtMs := e.now, turnsSinceLastRun := 0.0, lastTranscriptMtimeMs := e.transcriptMtime);
        emitted := SaveCadence(state, save);
      } else {
        state := state.(turnsSinceLastRun := turnsSinceLastRun);
        var ok := SaveCadence(state, save);
        emitted := false;
      }
    }
  }

  // ---- whole runs ----

  datatype Attempt = Attempt(event: Event, load: Load, save: Save)

  /** An emitted follow-up; `epoch` is how often the memory had been lost by then. */
  datatype Firing = Firing(now: real, mtime: real, minMinutes: int, epoch: nat)

  datatype Trace = Trace(stored: Raw, firings: seq<Firing>, counted: nat, forgotten: nat)

  /** The event replaces what was stored by something that does not build on it. */
  predicate Forgets(raw: Raw, a: Attempt) {
    Reaches(raw, a.event, a.load) && (a.save.Torn? || (a.load.LoadedNothing? && !a.save.NotStored?))
  }

  /** What a run of stop events leaves behind: the stored value, the emitted follow-ups, the
      number of counted turns that main did not take for duplicates, stored or not, and the
      number of times the memory was lost. */
  function Play(raw: Raw, run: seq<Attempt>): Trace {
    if run == [] then Trace(raw, [], 0, 0) else PlayOne(Play(raw, run[..|run| - 1]), run[|run| - 1])
  }

  function PlayOne(before: Trace, a: Attempt): Trace {
    var s, result := Seen(before.stored, a.load), Stop(before.stored, a.event, a.load, a.save);
    var forgotten := before.forgotten + if Forgets(before.stored, a) then 1 else 0;
    Trace(
      result.0,
      if result.1 && a.event.transcriptMtime.Some?
      then before.firings + [FiringOf(s, a.event, forgotten)]
      else before.firings,
      before.counted + (if ShouldCountTurn(a.event) && Reaches(before.stored, a.event, a.load) then 1 else 0),
      forgotten)
  }

  /** One event adds at most the turn it counts, and a follow-up takes at least m turns away. */
  lemma OneEventSpendsTurns(raw: Raw, e: Event, load: Load, save: Save, m: nat)
    requires m <= e.config.minTurns && m <= e.config.trialMinTurns
    ensures var result := Stop(raw, e, load, save);
            ParseCadenceState(result.0).turnsSinceLastRun + (if result.1 then m as real else 0.0)
            <= ParseCadenceState(raw).turnsSinceLastRun
               + if ShouldCountTurn(e) && Reaches(raw, e, load) then 1.0 else 0.0
  {
    StoredStateParsesBack(NextState(Seen(raw, load), e), raw);
  }

  lemma OneMore(n: nat, m: nat)
    ensures ((n + 1) * m) as real == (n * m) as real + m as real
  {
  }

  /** Every emitted follow-up used up at least m turns, where m is any lower bound of the
      configured minimums; turns are never counted twice. This holds from any stored value
      and however loads and saves end. */
  lemma {:induction false} FollowUpsAreBoundedByTurns(raw: Raw, run: seq<Attempt>, m: nat)
    requires forall i :: 0 <= i < |run| ==>
               m <= run[i].event.config.minTurns && m <= run[i].event.config.trialMinTurns
    ensures var t := Play(raw, run);
            (|t.firings| * m) as real + ParseCadenceState(t.stored).turnsSinceLastRun
            <= t.counted as real + ParseCadenceState(raw).turnsSinceLastRun
    decreases |run|
  {
    if run != [] {
      var before, a := Play(raw, run[..|run| - 1]), run[|run| - 1];
      FollowUpsAreBoundedByTurns(raw, run[..|run| - 1], m);
      OneEventSpendsTurns(before.stored, a.event, a.load, a.save, m);
      OneMore(|before.firings|, m);
    }
  }

  /** The events of a run that are turns to count, duplicates included. */
  ghost function TurnsIn(run: seq<Attempt>): set<int> {
    set i | 0 <= i < |run| && run[i].event.completed && run[i].event.loopCount == 0
  }

  lemma {:induction false} OneMoreTurnIn(run: seq<Attempt>)
    requires run != []
    ensures var n := |run| - 1;
            |TurnsIn(run)|
            == |TurnsIn(run[..n])| + if run[n].event.completed && run[n].event.loopCount == 0 then 1 else 0
  {
    var n := |run| - 1;
    var before := TurnsIn(run[..n]);
    assert TurnsIn(run) == if run[n].event.completed && run[n].event.loopCount == 0 then before + {n} else before;
  }

  lemma {:induction false} CountedTurnsAreTurns(raw: Raw, run: seq<Attempt>)
    ensures Play(raw, run).counted <= |TurnsIn(run)|
    decreases |run|
  {
    if run != [] {
      var n := |run| - 1;
      CountedTurnsAreTurns(raw, run[..n]);
      OneMoreTurnIn(run);
    }
  }

  /** From the default state: emitted follow-ups times the minimum, plus the turns waiting,
      never exceed the counted turns. */
  lemma {:induction false} FollowUpsFromTheStart(run: seq<Attempt>, m: nat)
    requires forall i :: 0 <= i < |run| ==>
               m <= run[i].event.config.minTurns && m <= run[i].event.config.trialMinTurns
    ensures var t := Play(Null, run);
            && (|t.firings| * m) as real + ParseCadenceState(t.stored).turnsSinceLastRun <= t.counted as real
            && t.counted <= |TurnsIn(run)|
  {
    FollowUpsAreBoundedByTurns(Null, run, m);
    CountedTurnsAreTurns(Null, run);
  }

  /** The state knows of a run and a transcript no older than this follow-up. */
  ghost predicate Remembers(s: State, l: Firing) {
    && s.lastRunAtMs >= l.now > 0.0
    && s.lastTranscriptMtimeMs.Some? && s.lastTranscriptMtimeMs.value >= l.mtime
  }

  /** f comes its own minimum of minutes after l, and for a newer transcript. */
  ghost predicate Later(l: Firing, f: Firing) {
    f.now - l.now >= 60_000.0 * f.minMinutes as real && f.mtime > l.mtime
  }

  ghost predicate Spaced(firings: seq<Firing>) {
    forall i :: 0 <= i < |firings| - 1 ==> Later(firings[i], firings[i + 1])
  }

  /** Consecutive follow-ups with no loss of memory between them are spaced. */
  ghost predicate SpacedWithinEpochs(firings: seq<Firing>) {
    forall i :: 0 <= i < |firings| - 1 && firings[i].epoch == firings[i + 1].epoch ==>
      Later(firings[i], firings[i + 1])
  }

  lemma FloorReached(x: real, n: int)
    requires (x / 60_000.0).Floor >= n
    ensures x >= 60_000.0 * n as real
  {
    assert x / 60_000.0 >= n as real;
    assert x == 60_000.0 * (x / 60_000.0);
  }

  ghost predicate Timed(e: Event) {
    e.now > 0.0 && e.config.minMinutes >= 0 && e.config.trialMinMinutes >= 0
  }

  /** A trigger comes after the last run it knows of, by the effective minutes. */
  lemma TriggerIsLater(s: State, e: Event)
    requires ShouldTrigger(s, e) && Timed(e)
    ensures s.lastRunAtMs > 0.0 ==>
              e.now - s.lastRunAtMs >= 60_000.0 * EffectiveMinMinutes(s, e) as real >= 0.0
    ensures s.lastTranscriptMtimeMs.Some? && e.transcriptMtime.Some? ==>
              e.transcriptMtime.value > s.lastTranscriptMtimeMs.value
  {
    if s.lastRunAtMs > 0.0 {
      FloorReached(e.now - s.lastRunAtMs, EffectiveMinMinutes(s, e));
    }
  }

  function FiringOf(s: State, e: Event, epoch: nat): Firing
    requires e.transcriptMtime.Some?
  {
    Firing(e.now, e.transcriptMtime.value, EffectiveMinMinutes(s, e), epoch)
  }

  /** An event that triggers comes later than l. */
  ghost predicate ComesLater(s: State, l: Firing, e: Event) {
    Timed(e) && ShouldTrigger(s, e) && e.transcriptMtime.Some? ==> Later(l, FiringOf(s, e, l.epoch))
  }

  /** A turn to count, without a trial and with thresholds of one. */
  function Probe(now: real, mtime: real, turns: int, minutes: int): Event {
    Event(None, true, 0, now, Some(mtime), Config(false, 1, 1, 1, turns, minutes))
  }

  /** A state that does not remember l lets some event through that is not later than l. */
  lemma UnrememberedIsRepeated(s: State, l: Firing) returns (e: Event)
    requires l.now > 0.0 && s.turnsSinceLastRun >= 0.0 && !Remembers(s, l)
    ensures !ComesLater(s, l, e)
  {
    if s.lastRunAtMs < l.now {
      var high := if s.lastTranscriptMtimeMs.Some? then s.lastTranscriptMtimeMs.value + 1.0 else 0.0;
      var soon := if s.lastRunAtMs > 0.0 then (s.lastRunAtMs + l.now) / 2.0 else l.now / 2.0;
      e := Probe(soon, high, 1, 0);
      if s.lastRunAtMs > 0.0 {
        FloorOfEnough(soon - s.lastRunAtMs, 0);
      }
    } else {
      e := Probe(s.lastRunAtMs, l.mtime, 1, 0);
      FloorOfEnough(0.0, 0);
    }
    assert Timed(e) && ShouldTrigger(s, e);
  }

  /** The exact condition for spacing: every event that triggers comes later than l if and only
      if the state remembers l. */
  lemma SpacedAfterIff(s: State, l: Firing)
    requires l.now > 0.0 && s.turnsSinceLastRun >= 0.0
    ensures (forall e :: ComesLater(s, l, e)) <==> Remembers(s, l)
  {
    if Remembers(s, l) {
      forall e ensures ComesLater(s, l, e) {
        if Timed(e) && ShouldTrigger(s, e) {
          TriggerIsLater(s, e);
        }
      }
    } else {
      var e := UnrememberedIsRepeated(s, l);
    }
  }

  lemma NextStateRemembers(s: State, l: Firing, e: Event)
    requires Remembers(s, l) && Timed(e)
    ensures Remembers(NextState(s, e), l)
  {
    if ShouldTrigger(s, e) {
      TriggerIsLater(s, e);
    }
  }

  /** One event keeps the memory of l exactly when it does not forget, or happens to trigger
      from the default state no earlier than l. */
  lemma StillRemembersIff(raw: Raw, l: Firing, a: Attempt)
    requires Remembers(ParseCadenceState(raw), l) && Timed(a.event)
    ensures Remembers(ParseCadenceState(Stop(raw, a.event, a.load, a.save).0), l) <==>
            (Forgets(raw, a) ==>
              && !a.save.Torn? && ShouldTrigger(DEFAULT_STATE, a.event)
              && a.event.now >= l.now && a.event.transcriptMtime.value >= l.mtime)
  {
    var s := Seen(raw, a.load);
    StoredStateParsesBack(NextState(s, a.event), raw);
    if a.load.Loaded? {
      NextStateRemembers(s, l, a.event);
    }
  }

  /** What a trace keeps: follow-ups are spaced within epochs, and while nothing has been
      forgotten since the last one it is remembered. */
  ghost predicate Sound(t: Trace) {
    && SpacedWithinEpochs(t.firings)
    && (forall i :: 0 <= i < |t.firings| ==> t.firings[i].epoch <= t.forgotten && t.firings[i].now > 0.0)
    && (t.firings != [] && t.firings[|t.firings| - 1].epoch == t.forgotten ==>
          Remembers(ParseCadenceState(t.stored), t.firings[|t.firings| - 1]))
  }

  lemma AppendedIsSpaced(firings: seq<Firing>, f: Firing)
    requires SpacedWithinEpochs(firings)
    requires firings != [] && firings[|firings| - 1].epoch == f.epoch ==> Later(firings[|firings| - 1], f)
    ensures SpacedWithinEpochs(firings + [f])
  {
    var all := firings + [f];
    forall i | 0 <= i < |all| - 1 && all[i].epoch == all[i + 1].epoch ensures Later(all[i], all[i + 1]) {
      if i < |firings| - 1 {
        assert all[i] == firings[i] && all[i + 1] == firings[i + 1];
      }
    }
  }

  /** An emitted follow-up is remembered, and later than the last one if that still was. */
  lemma EmittedIsSpaced(raw: Raw, a: Attempt, epoch: nat)
    requires Timed(a.event) && Stop(raw, a.event, a.load, a.save).1 && a.event.transcriptMtime.Some?
    ensures Remembers(ParseCadenceState(Stop(raw, a.event, a.load, a.save).0),
                      FiringOf(Seen(raw, a.load), a.event, epoch))
    ensures forall l :: Remembers(Seen(raw, a.load), l) ==>
              Later(l, FiringOf(Seen(raw, a.load), a.event, epoch))
  {
    StoredStateParsesBack(NextState(Seen(raw, a.load), a.event), raw);
    TriggerIsLater(Seen(raw, a.load), a.event);
  }

  lemma PlayOneIsSound(before: Trace, a: Attempt)
    requires Sound(before) && Timed(a.event)
    ensures Sound(PlayOne(before, a))
  {
    var after, firings := PlayOne(before, a), before.firings;
    if firings != [] && firings[|firings| - 1].epoch == after.forgotten {
      StillRemembersIff(before.stored, firings[|firings| - 1], a);
    }
    if Stop(before.stored, a.event, a.load, a.save).1 && a.event.transcriptMtime.Some? {
      EmittedIsSpaced(before.stored, a, after.forgotten);
      AppendedIsSpaced(firings, FiringOf(Seen(before.stored, a.load), a.event, after.forgotten));
    }
  }

  lemma {:induction false} EveryTraceIsSound(raw: Raw, run: seq<Attempt>)
    requires forall i :: 0 <= i < |run| ==> Timed(run[i].event)
    ensures Sound(Play(raw, run))
    decreases |run|
  {
    if run != [] {
      EveryTraceIsSound(raw, run[..|run| - 1]);
      PlayOneIsSound(Play(raw, run[..|run| - 1]), run[|run| - 1]);
    }
  }

  /** With a positive clock and the minute settings that a configuration yields: in every run
      consecutive follow-ups are spaced unless the memory was lost between them, so all are in
      a run that never loses it. */
  lemma {:induction false} FollowUpsAreSpaced(raw: Raw, run: seq<Attempt>)
    requires forall i :: 0 <= i < |run| ==> Timed(run[i].event)
    ensures SpacedWithinEpochs(Play(raw, run).firings)
    ensures Play(raw, run).forgotten == 0 ==> Spaced(Play(raw, run).firings)
  {
    EveryTraceIsSound(raw, run);
  }

  /** After a torn save, whatever was emitted before, an event triggers exactly when it counts,
      has a transcript, and a single turn is enough. */
  lemma TornSaveForgetsEverything(raw: Raw, e: Event, load: Load, next: Event)
    requires Reaches(raw, e, load)
    ensures Stop(Stop(raw, e, load, Torn).0, next, Loaded, Saved).1 <==>
            ShouldCountTurn(next) && next.transcriptMtime.Some? && EffectiveMinTurns(DEFAULT_STATE, next) <= 1
  {
  }

  /** So a torn save can repeat a follow-up two seconds later, on the same transcript. */
  lemma TornSaveSpoilsSpacing()
    ensures var run := [Attempt(Probe(1000.0, 5.0, 1, 120), Loaded, Saved),
                        Attempt(Probe(2000.0, 5.0, 1, 120), Loaded, Torn),
                        Attempt(Probe(3000.0, 5.0, 1, 120), Loaded, Saved)];
            |Play(Null, run).firings| == 2 && !Spaced(Play(Null, run).firings)
  {
    var a, b, c := Attempt(Probe(1000.0, 5.0, 1, 120), Loaded, Saved),
                   Attempt(Probe(2000.0, 5.0, 1, 120), Loaded, Torn),
                   Attempt(Probe(3000.0, 5.0, 1, 120), Loaded, Saved);
    assert [a, b, c][..2] == [a, b] && [a, b][..1] == [a] && [a][..0] == [];
    var none: seq<Attempt> := [];
    assert Play(Null, none) == Trace(Null, [], 0, 0);
    var one := PlayOne(Trace(Null, [], 0, 0), a);
    assert Play(Null, [a]) == one && |one.firings| == 1;
    var two := PlayOne(one, b);
    assert Play(Null, [a, b]) == two && two.firings == one.firings && two.stored == Unparsable;
    var three := PlayOne(two, c);
    assert Play(Null, [a, b, c]) == three && |three.firings| == 2;
    assert !Later(three.firings[0], three.firings[1]);
  }

  /** Nothing holds these events back but the turn count: each one counts, is loaded and saved,
      comes the minimum of minutes after the one before it with a newer transcript, and repeats
      no generation. The thresholds are m turns and `minutes` where the trial setting and the
      time since `start` call for them. */
  ghost predicate Steady(run: seq<Attempt>, lo: nat, hi: nat, trial: bool, start: real, m: nat, minutes: int)
    requires lo <= hi <= |run|
  {
    && (forall i :: lo <= i < hi ==> SteadyEvent(run[i], trial, start, m, minutes))
    && (forall i :: lo <= i < hi && 0 < i ==> Follows(run[i - 1].event, run[i].event, minutes))
  }

  ghost predicate SteadyEvent(a: Attempt, trial: bool, start: real, m: nat, minutes: int) {
    var e, c := a.event, a.event.config;
    && a.load.Loaded? && a.save.Saved? && e.completed && e.loopCount == 0 && e.transcriptMtime.Some? && e.now > 0.0
    && c.trialEnabled == trial
    && if trial && e.now < start + 60_000.0 * c.trialDurationMinutes as real
       then c.trialMinTurns == m && c.trialMinMinutes == minutes
       else c.minTurns == m && c.minMinutes == minutes
  }

  ghost predicate Follows(e: Event, next: Event, minutes: int) {
    && next.now - e.now >= 60_000.0 * minutes as real && next.now >= e.now
    && (e.transcriptMtime.Some? && next.transcriptMtime.Some? ==> next.transcriptMtime.value > e.transcriptMtime.value)
    && (next.generation.Some? ==> next.generation != e.generation)
  }

  /** What the state has seen by the time of e. */
  ghost predicate UpTo(s: State, e: Event) {
    && s.lastProcessedGenerationId == e.generation && s.lastRunAtMs <= e.now && e.transcriptMtime.Some?
    && (s.lastTranscriptMtimeMs.Some? ==> s.lastTranscriptMtimeMs.value <= e.transcriptMtime.value)
  }

  lemma FloorOfEnough(x: real, n: int)
    requires x >= 60_000.0 * n as real
    ensures (x / 60_000.0).Floor >= n
  {
    assert x == 60_000.0 * (x / 60_000.0);
  }

  /** The state lets e through as far as time, transcript and generation go, and its trial
      started or starts now at `start`. */
  ghost predicate Ready(s: State, e: Event, trial: bool, start: real, minutes: int) {
    && (s.lastRunAtMs > 0.0 ==> e.now - s.lastRunAtMs >= 60_000.0 * minutes as real)
    && s.lastRunAtMs <= e.now && e.transcriptMtime.Some?
    && (s.lastTranscriptMtimeMs.Some? ==> e.transcriptMtime.value > s.lastTranscriptMtimeMs.value)
    && (e.generation.Some? ==> e.generation != s.lastProcessedGenerationId)
    && (trial ==> s.trialStartedAtMs == Some(start) || (s.trialStartedAtMs.None? && e.now == start))
  }

  /** The event counts, and these thresholds let it through. */
  ghost predicate Meets(s: State, e: Event, minTurns: int, minMinutes: int) {
    && e.completed && e.loopCount == 0
    && s.turnsSinceLastRun + 1.0 >= minTurns as real
    && (s.lastRunAtMs > 0.0 ==> e.now - s.lastRunAtMs >= 60_000.0 * minMinutes as real)
    && e.transcriptMtime.Some?
    && (s.lastTranscriptMtimeMs.Some? ==> e.transcriptMtime.value > s.lastTranscriptMtimeMs.value)
  }

  lemma MinutesAreWhole(x: real, n: int)
    ensures (x / 60_000.0).Floor >= n <==> x >= 60_000.0 * n as real
  {
    if x >= 60_000.0 * n as real {
      FloorOfEnough(x, n);
    }
    if (x / 60_000.0).Floor >= n {
      FloorReached(x, n);
    }
  }

  /** With a trial that started, or starts with this event, at `start`, the trial thresholds
      decide strictly before the configured minutes have passed and the regular ones from that
      very instant on; without a trial the regular ones always do. */
  lemma ThresholdsSwitchWhenTheTrialEnds(s: State, e: Event, start: real)
    requires e.config.trialEnabled ==>
               s.trialStartedAtMs == Some(start) || (s.trialStartedAtMs.None? && start == e.now)
    ensures e.config.trialEnabled && e.now < start + 60_000.0 * e.config.trialDurationMinutes as real ==>
              (ShouldTrigger(s, e) <==> Meets(s, e, e.config.trialMinTurns, e.config.trialMinMinutes))
    ensures !e.config.trialEnabled || e.now >= start + 60_000.0 * e.config.trialDurationMinutes as real ==>
              (ShouldTrigger(s, e) <==> Meets(s, e, e.config.minTurns, e.config.minMinutes))
  {
    if s.lastRunAtMs > 0.0 {
      MinutesAreWhole(e.now - s.lastRunAtMs, e.config.trialMinMinutes);
      MinutesAreWhole(e.now - s.lastRunAtMs, e.config.minMinutes);
    }
  }

  /** The first n events have led to s, and with a trial the first of them started it. */
  ghost predicate Underway(s: State, run: seq<Attempt>, n: nat, trial: bool, start: real)
    requires n <= |run|
  {
    if n == 0 then s == DEFAULT_STATE && (trial && run != [] ==> run[0].event.now == start)
    else UpTo(s, run[n - 1].event) && (trial ==> s.trialStartedAtMs == Some(start))
  }

  /** A loaded and saved event that is no duplicate takes s to t, and f follow-ups to g. */
  ghost predicate Takes(s: State, f: nat, e: Event, t: State, g: nat) {
    !IsDuplicate(s, e) ==> t == NextState(s, e) && g == f + (if ShouldTrigger(s, e) then 1 else 0)
  }

  /** One more turn: a follow-up exactly when it makes m, and then the turns start over. */
  ghost predicate Carries(followUps: nat, turns: real, followUps': nat, turns': real, m: nat) {
    && followUps' == followUps + (if turns + 1.0 >= m as real then 1 else 0)
    && turns' == (if turns + 1.0 >= m as real then 0.0 else turns + 1.0)
  }

  lemma ReadyCarries(s: State, f: nat, a: Attempt, t: State, g: nat, trial: bool, start: real, m: nat, minutes: int)
    requires SteadyEvent(a, trial, start, m, minutes) && Ready(s, a.event, trial, start, minutes)
    requires Takes(s, f, a.event, t, g)
    ensures Carries(f, s.turnsSinceLastRun, g, t.turnsSinceLastRun, m)
    ensures UpTo(t, a.event) && (trial ==> t.trialStartedAtMs == Some(start))
  {
    ThresholdsSwitchWhenTheTrialEnds(s, a.event, start);
    assert ShouldTrigger(s, a.event) <==> s.turnsSinceLastRun + 1.0 >= m as real;
  }

  lemma SteadyNext(run: seq<Attempt>, n: nat, s: State, f: nat, t: State, g: nat,
                   trial: bool, start: real, m: nat, minutes: int)
    requires n < |run| && SteadyEvent(run[n], trial, start, m, minutes)
    requires n > 0 ==> Follows(run[n - 1].event, run[n].event, minutes)
    requires Underway(s, run, n, trial, start) && Takes(s, f, run[n].event, t, g)
    ensures Underway(t, run, n + 1, trial, start)
    ensures Carries(f, s.turnsSinceLastRun, g, t.turnsSinceLastRun, m)
  {
    ReadyCarries(s, f, run[n], t, g, trial, start, m, minutes);
  }

  /** How many whole groups of m there are in n, and what is left over. */
  function Groups(n: nat, m: nat): nat
    requires m >= 1
  {
    if n < m then 0 else 1 + Groups(n - m, m)
  }

  function Rest(n: nat, m: nat): (r: nat)
    requires m >= 1
    ensures r < m
  {
    if n < m then n else Rest(n - m, m)
  }

  lemma {:induction false} GroupsMultiply(n: nat, m: nat)
    requires m >= 1
    ensures n == Groups(n, m) * m + Rest(n, m)
    decreases n
  {
    if n >= m {
      GroupsMultiply(n - m, m);
      NextMultiple(Groups(n - m, m), m);
    }
  }

  lemma NextMultiple(q: nat, m: nat)
    ensures (1 + q) * m == q * m + m
  {
  }

  lemma {:induction false} GroupsDivide(n: nat, m: nat)
    requires m >= 1
    ensures Groups(n, m) == n / m && Rest(n, m) == n % m
  {
    GroupsMultiply(n, m);
    DivisionIs(n, m, Groups(n, m), Rest(n, m));
  }

  lemma {:induction false} OneMoreTurn(n: nat, m: nat)
    requires m >= 1
    ensures Groups(n + 1, m) == Groups(n, m) + (if Rest(n, m) + 1 >= m then 1 else 0)
    ensures Rest(n + 1, m) == (if Rest(n, m) + 1 >= m then 0 else Rest(n, m) + 1)
    decreases n
  {
    if n >= m {
      OneMoreTurn(n - m, m);
    }
  }

  lemma DivisionIs(n: nat, m: nat, q: nat, r: nat)
    requires n == q * m + r && r < m
    ensures n / m == q && n % m == r
  {
    assert (n / m - q) * m == (n / m) * m - q * m;
    MultipleIsLarge(n / m - q, m);
  }

  lemma MultipleIsLarge(d: int, m: nat)
    ensures d >= 1 ==> d * m >= m
    ensures d <= -1 ==> d * m + m <= 0
  {
    assert d * m == (d - 1) * m + m && d * m == (d + 1) * m - m;
  }

  /** The states and numbers of follow-ups that a run from nothing goes through. */
  ghost predicate Trail(run: seq<Attempt>, states: seq<State>, followUps: seq<nat>) {
    && |states| == |followUps| == |run| + 1 && states[0] == DEFAULT_STATE && followUps[0] == 0
    && (forall i :: 0 <= i < |run| && IsPlain(run[i]) ==>
          Takes(states[i], followUps[i], run[i].event, states[i + 1], followUps[i + 1]))
  }

  predicate IsPlain(a: Attempt) {
    a.load.Loaded? && a.save.Saved? && a.event.transcriptMtime.Some?
  }

  /** A steady stretch takes a conversation that is underway, with some turns waiting, through
      whole groups of m turns. */
  lemma {:induction false} SteadyStretch(run: seq<Attempt>, states: seq<State>, followUps: seq<nat>,
                                         lo: nat, hi: nat, trial: bool, start: real, m: nat, minutes: int,
                                         waiting: nat)
    requires Trail(run, states, followUps) && lo <= hi <= |run|
    requires Steady(run, lo, hi, trial, start, m, minutes)
    requires waiting < m && Underway(states[lo], run, lo, trial, start)
    requires states[lo].turnsSinceLastRun == waiting as real
    ensures Underway(states[hi], run, hi, trial, start)
    ensures followUps[hi] == followUps[lo] + Groups(waiting + hi - lo, m)
    ensures states[hi].turnsSinceLastRun == Rest(waiting + hi - lo, m) as real
    decreases hi
  {
    if hi > lo {
      var n := hi - 1;
      SteadyStretch(run, states, followUps, lo, n, trial, start, m, minutes, waiting);
      assert SteadyEvent(run[n], trial, start, m, minutes) && IsPlain(run[n]);
      SteadyNext(run, n, states[n], followUps[n], states[hi], followUps[hi], trial, start, m, minutes);
      OneMoreTurn(waiting + n - lo, m);
    }
  }

  lemma SteadyWhole(run: seq<Attempt>, states: seq<State>, followUps: seq<nat>,
                    trial: bool, start: real, m: nat, minutes: int)
    requires Trail(run, states, followUps) && m >= 1 && Steady(run, 0, |run|, trial, start, m, minutes)
    requires trial && run != [] ==> run[0].event.now == start
    ensures followUps[|run|] == |run| / m
  {
    SteadyStretch(run, states, followUps, 0, |run|, trial, start, m, minutes, 0);
    GroupsDivide(|run|, m);
  }

  lemma {:induction false} GroupsAre(n: nat, m: nat, q: nat, r: nat)
    requires n == q * m + r && r < m
    ensures Groups(n, m) == q && Rest(n, m) == r
  {
    GroupsDivide(n, m);
    DivisionIs(n, m, q, r);
  }

  lemma SteadyHalves(run: seq<Attempt>, states: seq<State>, followUps: seq<nat>, k: nat, start: real,
                     m: nat, minutes: int, n: nat, minutes': int, early: nat, left: nat)
    requires Trail(run, states, followUps) && run != [] && run[0].event.now == start
    requires k == early * m + left <= |run| && left < m && left < n
    requires Steady(run, 0, k, true, start, m, minutes) && Steady(run, k, |run|, true, start, n, minutes')
    ensures followUps[|run|] == early + (left + |run| - k) / n
  {
    GroupsAre(k, m, early, left);
    SteadyStretch(run, states, followUps, 0, k, true, start, m, minutes, 0);
    SteadyStretch(run, states, followUps, k, |run|, true, start, n, minutes', left);
    GroupsDivide(left + |run| - k, n);
  }

  function StatesOf(run: seq<Attempt>): seq<State> {
    seq(|run| + 1, i requires 0 <= i <= |run| => ParseCadenceState(Play(Null, run[..i]).stored))
  }

  function FollowUpsOf(run: seq<Attempt>): seq<nat> {
    seq(|run| + 1, i requires 0 <= i <= |run| => |Play(Null, run[..i]).firings|)
  }

  lemma PlayTakes(before: Trace, a: Attempt)
    requires a.load.Loaded? && a.save.Saved? && a.event.transcriptMtime.Some?
    requires ParseCadenceState(before.stored).turnsSinceLastRun >= 0.0
    ensures var after := PlayOne(before, a);
            Takes(ParseCadenceState(before.stored), |before.firings|, a.event,
                  ParseCadenceState(after.stored), |after.firings|)
  {
    var s := ParseCadenceState(before.stored);
    StoredStateParsesBack(NextState(s, a.event), before.stored);
  }

  lemma OneMorePlayed(run: seq<Attempt>, n: nat)
    requires n < |run|
    ensures Play(Null, run[..n + 1]) == PlayOne(Play(Null, run[..n]), run[n])
  {
    assert run[..n + 1][..n] == run[..n];
  }

  lemma RunTakes(run: seq<Attempt>, i: nat)
    requires i < |run| && IsPlain(run[i])
    ensures Takes(StatesOf(run)[i], FollowUpsOf(run)[i], run[i].event, StatesOf(run)[i + 1], FollowUpsOf(run)[i + 1])
  {
    OneMorePlayed(run, i);
    StoredStateParsesBack(DEFAULT_STATE, Play(Null, run[..i]).stored);
    PlayTakes(Play(Null, run[..i]), run[i]);
  }

  lemma {:induction false} RunIsTrail(run: seq<Attempt>)
    ensures Trail(run, StatesOf(run), FollowUpsOf(run))
    ensures FollowUpsOf(run)[|run|] == |Play(Null, run).firings|
  {
    assert run[..0] == [] && run[..|run|] == run;
    forall i | 0 <= i < |run| && IsPlain(run[i])
      ensures Takes(StatesOf(run)[i], FollowUpsOf(run)[i], run[i].event, StatesOf(run)[i + 1], FollowUpsOf(run)[i + 1])
    {
      RunTakes(run, i);
    }
  }

  /** The bound is tight: a steady conversation gets exactly one follow-up every m turns, where
      m is the trial minimum as long as the trial lasts and the regular minimum without one. */
  lemma {:induction false} SteadyConversationsFireEveryMTurns(run: seq<Attempt>, trial: bool, start: real, m: nat,
                                                              minutes: int)
    requires m >= 1 && Steady(run, 0, |run|, trial, start, m, minutes)
    requires trial && run != [] ==> run[0].event.now == start
    ensures |Play(Null, run).firings| == |run| / m
  {
    RunIsTrail(run);
    SteadyWhole(run, StatesOf(run), FollowUpsOf(run), trial, start, m, minutes);
  }

  /** A conversation that outlasts its trial: one follow-up every m turns for the k turns before
      the trial ends, and from then on one every n turns, counting the turns left waiting. */
  lemma {:induction false} ConversationsOutlastTheirTrial(run: seq<Attempt>, k: nat, start: real, m: nat, minutes: int,
                                                          n: nat, minutes': int, early: nat, left: nat)
    requires k == early * m + left <= |run| && left < m && left < n && run != [] && run[0].event.now == start
    requires Steady(run, 0, k, true, start, m, minutes) && Steady(run, k, |run|, true, start, n, minutes')
    ensures |Play(Null, run).firings| == early + (left + |run| - k) / n
  {
    RunIsTrail(run);
    SteadyHalves(run, StatesOf(run), FollowUpsOf(run), k, start, m, minutes, n, minutes', early, left);
  }

  /** The event loses the start of the trial, by forgetting it and not starting another at the
      very same time. */
  predicate LosesTrial(raw: Raw, a: Attempt, start: real) {
    && Forgets(raw, a)
    && (a.save.Torn? || TrialStart(DEFAULT_STATE, a.event) != Some(start))
  }

  /** One event keeps the start of the trial exactly when it does not lose it. */
  lemma TrialStartIsKeptIff(raw: Raw, a: Attempt, start: real)
    requires ParseCadenceState(raw).trialStartedAtMs == Some(start)
    ensures ParseCadenceState(Stop(raw, a.event, a.load, a.save).0).trialStartedAtMs == Some(start)
            <==> !LosesTrial(raw, a, start)
  {
    StoredStateParsesBack(NextState(Seen(raw, a.load), a.event), raw);
  }

  /** A trial window does not move in a run that does not lose it: once the configured duration
      has passed the regular thresholds apply in every later state. */
  lemma {:induction false} TrialStartsOnce(raw: Raw, run: seq<Attempt>, start: real, e: Event)
    requires ParseCadenceState(raw).trialStartedAtMs == Some(start)
    requires forall i :: 0 <= i < |run| ==> !LosesTrial(Play(raw, run[..i]).stored, run[i], start)
    requires e.now - start >= (e.config.trialDurationMinutes * 60_000) as real
    ensures var s := ParseCadenceState(Play(raw, run).stored);
            && s.trialStartedAtMs == Some(start)
            && EffectiveMinTurns(s, e) == e.config.minTurns && EffectiveMinMinutes(s, e) == e.config.minMinutes
    decreases |run|
  {
    if run != [] {
      var init, a := run[..|run| - 1], run[|run| - 1];
      forall i | 0 <= i < |init| ensures !LosesTrial(Play(raw, init[..i]).stored, init[i], start) {
        assert init[..i] == run[..i];
      }
      TrialStartsOnce(raw, init, start, e);
      assert run[..|init|] == init;
      TrialStartIsKeptIff(Play(raw, init).stored, a, start);
    }
  }

  /** Replaying a generation that has just been stored changes nothing and emits nothing,
      exactly as long as the replay does not load an empty state. */
  lemma ReplayIsIdleIff(raw: Raw, a: Attempt, again: Attempt)
    requires a.event.generation.Some? && a.event.generation.value != ""
    requires again.event.generation == a.event.generation
    requires !a.load.LoadThrew? && (a.save.Saved? || a.save.StoredThenThrew?)
    ensures var once := Stop(raw, a.event, a.load, a.save).0;
            !Reaches(once, again.event, again.load) <==> !again.load.LoadedNothing?
    ensures var once := Stop(raw, a.event, a.load, a.save).0;
            !again.load.LoadedNothing? ==> Stop(once, again.event, again.load, again.save) == (once, false)
  {
    StoredStateParsesBack(NextState(Seen(raw, a.load), a.event), raw);
  }

  /** Whatever the environment holds, every threshold is at least 1, so a run emits no more
      follow-ups than it counts turns. */
  lemma ThresholdsArePositive(env: map<string, string>, trialEnabled: bool, round: Rounding)
    ensures var c := ReadConfig(env, trialEnabled, round);
            c.minTurns >= 1 && c.trialMinTurns >= 1 && c.minMinutes >= 1 && c.trialMinMinutes >= 1
            && c.trialDurationMinutes >= 1
  {
  }
}
