/**
 * The halt protocol as a state machine: an append-only audit log and per-day risk rows that survive a crash,
 * a halt flag that does not, and operations that other operations, or a restart, can interrupt between any two writes.
 */
module HaltProtocol {
  import opened Wrappers

  const MS_PER_DAY := 86_400_000
  const HALT_REASON_MAX_LEN := 256
  const PROGRAMMATIC_ACTOR_PREFIX := "SYSTEM:"

  datatype HaltSource = OPERATOR | MARKET_STRESS | MODEL_DIVERGENCE | DAILY_LOSS | WEEKLY_LOSS | RECOVERY | RATE_LIMIT | OTHER

  function SourceName(source: HaltSource): string {
    match source
    case OPERATOR => "operator"
    case MARKET_STRESS => "market_stress"
    case MODEL_DIVERGENCE => "model_divergence"
    case DAILY_LOSS => "daily_loss"
    case WEEKLY_LOSS => "weekly_loss"
    case RECOVERY => "recovery"
    case RATE_LIMIT => "rate_limit"
    case OTHER => "other"
  }

  /** The source a bare token names; any unknown token is OTHER. */
  function SourceOfToken(token: string): HaltSource {
    if token == "operator" then OPERATOR
    else if token == "market_stress" then MARKET_STRESS
    else if token == "model_divergence" then MODEL_DIVERGENCE
    else if token == "daily_loss" then DAILY_LOSS
    else if token == "weekly_loss" then WEEKLY_LOSS
    else if token == "recovery" then RECOVERY
    else if token == "rate_limit" then RATE_LIMIT
    else OTHER
  }

  datatype AuditRow = AuditRow(at: int, actorSub: string, reason: string, halted: bool)

  datatype RiskRow = RiskRow(isHalted: bool, haltReason: Option<string>)

  /** What an interrupted operation still has to do. */
  datatype Pending =
    | FlipHalt(wasHalted: bool, reason: string)
    | ClearRisk(wasHalted: bool, day: int)
    | FlipResume(wasHalted: bool)
    | Append(row: AuditRow)
    | StressClear(day: int, leg: string)
    | StressFlag(leg: string)

  /** `flag` is the in-memory halt with its reason; `audit` and `risk` are durable. */
  datatype World = World(audit: seq<AuditRow>, risk: map<int, RiskRow>, flag: Option<string>, pending: seq<Pending>)

  datatype Step =
    | BeginHalt(actorSub: string, reason: string, at: int)
    | BeginResume(actorSub: string, reason: string, at: int)
    | Continue(index: nat, ok: bool)
    | PersistHalt(day: int, haltReason: string)
    | ProgrammaticFlag(source: HaltSource, detail: string)
    | RateLimitEngage(detail: string, at: int)
    | RateLimitAutoClear(detail: string, at: int)
    | StressTick(day: int)
    | LoginAudit(actorSub: string, at: int)
    | Restart(at: int, keyPermissionRow: bool)

  function UtcDay(at: int): int {
    at / MS_PER_DAY
  }

  function TruncateReason(raw: string): string {
    if |raw| <= HALT_REASON_MAX_LEN then raw else raw[..HALT_REASON_MAX_LEN]
  }

  /** The newest row by occurrence time, whatever it records; of equally new rows, the one appended last. */
  function FindLatest(audit: seq<AuditRow>): (latest: Option<AuditRow>)
    ensures latest.None? <==> audit == []
    ensures latest.Some? ==> latest.value in audit && forall row :: row in audit ==> row.at <= latest.value.at
  {
    if audit == [] then None
    else
      var earlier, last := FindLatest(audit[..|audit| - 1]), audit[|audit| - 1];
      if earlier.Some? && earlier.value.at > last.at then earlier else Some(last)
  }

  predicate OwnedByRateLimit(flag: Option<string>) {
    flag.Some? && SourceName(RATE_LIMIT) + ":" <= flag.value
  }

  predicate HaltedOn(risk: map<int, RiskRow>, day: int) {
    day in risk && risk[day].isHalted
  }

  function ClearHaltForDay(risk: map<int, RiskRow>, day: int): map<int, RiskRow> {
    if day in risk then risk[day := RiskRow(false, None)] else risk
  }

  // --- the risk gate's automatic resume ---

  const MARKET_STRESS_RESUME_ELIGIBLE_LEGS := {"breadth", "same_bar"}

  /** The leg of a `market_stress:<leg>` reason, up to a further colon. */
  function StressLeg(haltReason: string): Option<string> {
    var i := IndexOfColon(haltReason);
    if i == |haltReason| || haltReason[..i] != SourceName(MARKET_STRESS) then None
    else
      var leg := haltReason[i + 1..];
      Some(leg[..IndexOfColon(leg)])
  }

  /** The day is halted by a leg of market stress that may resume by itself. */
  predicate StressEligible(risk: map<int, RiskRow>, day: int) {
    && HaltedOn(risk, day) && risk[day].haltReason.Some?
    && var leg := StressLeg(risk[day].haltReason.value);
       leg.Some? && leg.value in MARKET_STRESS_RESUME_ELIGIBLE_LEGS
  }

  // --- the boot-time restore ---

  datatype Origin = FromControlAudit | FromRiskState | FromNothing

  datatype Resolution = Resolution(desiredHalted: bool, source: HaltSource, reason: Option<string>, origin: Origin)

  function IndexOfColon(s: string): (i: nat)
    ensures i <= |s| && (i < |s| ==> s[i] == ':')
    ensures forall j :: 0 <= j < i ==> s[j] != ':'
  {
    if s == [] || s[0] == ':' then 0 else 1 + IndexOfColon(s[1..])
  }

  function ResolveProgrammaticSource(haltReason: Option<string>): HaltSource {
    if haltReason.None? || |haltReason.value| == 0 then OTHER
    else SourceOfToken(haltReason.value[..IndexOfColon(haltReason.value)])
  }

  function ResolveSourceFromActor(actorSub: string): HaltSource {
    if !(PROGRAMMATIC_ACTOR_PREFIX <= actorSub) then OPERATOR
    else SourceOfToken(actorSub[|PROGRAMMATIC_ACTOR_PREFIX|..])
  }

  function OrElse(reason: Option<string>, fallback: string): Option<string> {
    if reason.Some? then reason else Some(fallback)
  }

  /** `today` is today's risk row, if any, with its UTC day. */
  function ResolveNewerWins(latest: Option<AuditRow>, today: Option<RiskRow>, day: int): Resolution {
    var riskHalted := today.Some? && today.value.isHalted;
    var riskReason := if today.Some? then today.value.haltReason else None;
    if latest.None? then
      if riskHalted then Resolution(true, ResolveProgrammaticSource(riskReason), OrElse(riskReason, "programmatic"), FromRiskState)
      else Resolution(false, OPERATOR, None, FromNothing)
    else
      var startOfRiskDayMs := if today.None? then 0 else day * MS_PER_DAY;
      var auditNewerThanRiskState := latest.value.at >= startOfRiskDayMs;
      if riskHalted && !latest.value.halted then
        Resolution(true, ResolveProgrammaticSource(riskReason), OrElse(riskReason, latest.value.reason), FromRiskState)
      else if auditNewerThanRiskState || !riskHalted then
        Resolution(latest.value.halted, ResolveSourceFromActor(latest.value.actorSub), Some(latest.value.reason), FromControlAudit)
      else
        Resolution(true, ResolveProgrammaticSource(riskReason), OrElse(riskReason, latest.value.reason), FromRiskState)
  }

  function BuildFlagReason(resolution: Resolution): string {
    var reason := if resolution.reason.Some? then resolution.reason.value else "restored";
    if SourceName(resolution.source) + ":" <= reason then reason else SourceName(resolution.source) + ":" + reason
  }

  /** `HaltService.restoreFromAudit`: a halted latest row re-engages a flag that is down. */
  function RestoreFromAudit(flag: Option<string>, latest: Option<AuditRow>, source: HaltSource): Option<string> {
    if latest.Some? && latest.value.halted && flag.None? then Some(SourceName(source) + ":" + latest.value.reason) else flag
  }

  function ApplyResolution(flag: Option<string>, latest: Option<AuditRow>, resolution: Resolution): Option<string> {
    var restored := RestoreFromAudit(flag, latest, resolution.source);
    if resolution.desiredHalted && restored.None? then Some(BuildFlagReason(resolution))
    else if !resolution.desiredHalted && restored.Some? then None
    else restored
  }

  function RiskRowOn(risk: map<int, RiskRow>, day: int): Option<RiskRow> {
    if day in risk then Some(risk[day]) else None
  }

  function ResolutionAt(audit: seq<AuditRow>, risk: map<int, RiskRow>, at: int): Resolution {
    ResolveNewerWins(FindLatest(audit), RiskRowOn(risk, UtcDay(at)), UtcDay(at))
  }

  function RestoredFlag(audit: seq<AuditRow>, risk: map<int, RiskRow>, flag: Option<string>, at: int): Option<string> {
    ApplyResolution(flag, FindLatest(audit), ResolutionAt(audit, risk, at))
  }

  // --- steps ---

  function HaltRow(actorSub: string, reason: string, at: int): AuditRow {
    AuditRow(at, actorSub, TruncateReason(reason), true)
  }

  function ResumeRow(actorSub: string, reason: string, at: int): AuditRow {
    AuditRow(at, actorSub, TruncateReason(reason), false)
  }

  function RateLimitRow(reason: string, at: int, halted: bool): AuditRow {
    AuditRow(at, PROGRAMMATIC_ACTOR_PREFIX + SourceName(RATE_LIMIT), TruncateReason(reason), halted)
  }

  /** One pending operation's next write; a failed write, or a repeated resume event that is not emitted again, abandons the operation. */
  function ContinueWith(w: World, index: nat, ok: bool): World
    requires index < |w.pending|
  {
    var rest := w.pending[..index] + w.pending[index + 1..];
    match w.pending[index]
    case FlipHalt(wasHalted, reason) =>
      w.(pending := rest, flag := if ok && !wasHalted then Some(SourceName(OPERATOR) + ":" + reason) else w.flag)
    case ClearRisk(wasHalted, day) =>
      if ok then w.(pending := rest + [FlipResume(wasHalted)], risk := ClearHaltForDay(w.risk, day)) else w.(pending := rest)
    case FlipResume(wasHalted) =>
      w.(pending := rest, flag := if ok && wasHalted then None else w.flag)
    case Append(row) =>
      w.(pending := rest, audit := if ok then w.audit + [row] else w.audit)
    case StressClear(day, leg) =>
      if ok then w.(pending := rest + [StressFlag(leg)], risk := ClearHaltForDay(w.risk, day)) else w.(pending := rest)
    case StressFlag(leg) =>
      w.(pending := rest, flag := if ok && leg in MARKET_STRESS_RESUME_ELIGIBLE_LEGS then None else w.flag)
  }

  /** A `StressTick` is the gate's last required calm tick of a day, with automatic resumes enabled and the day's cap not reached. */
  function Apply(w: World, step: Step): World {
    match step
    case BeginHalt(actorSub, reason, at) =>
      w.(audit := w.audit + [HaltRow(actorSub, reason, at)], pending := w.pending + [FlipHalt(w.flag.Some?, reason)])
    case BeginResume(actorSub, reason, at) =>
      w.(audit := w.audit + [ResumeRow(actorSub, reason, at)], pending := w.pending + [ClearRisk(w.flag.Some?, UtcDay(at))])
    case Continue(index, ok) =>
      if index < |w.pending| then ContinueWith(w, index, ok) else w
    case PersistHalt(day, haltReason) =>
      if HaltedOn(w.risk, day) then w else w.(risk := w.risk[day := RiskRow(true, Some(haltReason))])
    case ProgrammaticFlag(source, detail) =>
      if w.flag.Some? then w else w.(flag := Some(SourceName(source) + ":" + detail))
    case RateLimitEngage(detail, at) =>
      w.(flag := if w.flag.Some? then w.flag else Some(SourceName(RATE_LIMIT) + ":" + detail),
         pending := w.pending + [Append(RateLimitRow("RATE_LIMIT_BAN:" + detail, at, true))])
    case RateLimitAutoClear(detail, at) =>
      if OwnedByRateLimit(w.flag) then w.(flag := None, pending := w.pending + [Append(RateLimitRow(detail, at, false))]) else w
    case StressTick(day) =>
      if StressEligible(w.risk, day) then w.(pending := w.pending + [StressClear(day, StressLeg(w.risk[day].haltReason.value).value)]) else w
    case LoginAudit(actorSub, at) =>
      w.(audit := w.audit + [AuditRow(at, actorSub, "login", w.flag.Some?)])
    case Restart(at, keyPermissionRow) =>
      var audit := if keyPermissionRow then w.audit + [AuditRow(at, "system", "key_permission", true)] else w.audit;
      World(audit, w.risk, RestoredFlag(audit, w.risk, None, at), [])
  }

  function Run(w: World, steps: seq<Step>): World
    decreases |steps|
  {
    if steps == [] then w else Run(Apply(w, steps[0]), steps[1..])
  }

  // --- reading a flag reason back ---

  lemma SourceNameHasNoColon(source: HaltSource)
    ensures forall i :: 0 <= i < |SourceName(source)| ==> SourceName(source)[i] != ':'
    ensures |SourceName(source)| > 0
  {
  }

  lemma SourceNameRoundTrip(source: HaltSource)
    ensures SourceOfToken(SourceName(source)) == source
  {
  }

  /** The sources' names on the wire and in the database. */
  lemma SourceNames(token: string)
    ensures SourceOfToken(token) != OTHER <==>
            token in {"operator", "market_stress", "model_divergence", "daily_loss", "weekly_loss", "recovery", "rate_limit"}
    ensures SourceName(OPERATOR) == "operator" && SourceName(MARKET_STRESS) == "market_stress" && SourceName(MODEL_DIVERGENCE) == "model_divergence"
    ensures SourceName(DAILY_LOSS) == "daily_loss" && SourceName(WEEKLY_LOSS) == "weekly_loss" && SourceName(RECOVERY) == "recovery"
    ensures SourceName(RATE_LIMIT) == "rate_limit" && SourceName(OTHER) == "other"
  {
  }

  /** The reason starting with a source's name and a colon names that source and no other. */
  lemma PrefixedReason(source: HaltSource, reason: string)
    requires SourceName(source) + ":" <= reason
    ensures ResolveProgrammaticSource(Some(reason)) == source
    ensures OwnedByRateLimit(Some(reason)) <==> source == RATE_LIMIT
  {
    hide SourceName, SourceOfToken;
    var name := SourceName(source);
    SourceNameHasNoColon(source);
    SourceNameRoundTrip(source);
    assert reason[|name|] == ':' by {
      assert (name + ":")[|name|] == ':';
    }
    var i := IndexOfColon(reason);
    assert forall j :: 0 <= j < |name| ==> reason[j] == (name + ":")[j] == name[j];
    assert i == |name|;
    assert reason[..i] == name;
    if OwnedByRateLimit(Some(reason)) {
      var other := SourceName(RATE_LIMIT);
      SourceNameHasNoColon(RATE_LIMIT);
      SourceNameRoundTrip(RATE_LIMIT);
      assert reason[|other|] == (other + ":")[|other|] == ':';
      assert forall j :: 0 <= j < |other| ==> reason[j] == (other + ":")[j] == other[j];
      assert i == |other|;
      assert reason[..i] == other;
    }
  }

  /** The restored reason parses back to the source it was built from, and building it again changes nothing. */
  lemma BuildFlagReasonRoundTrip(resolution: Resolution)
    ensures ResolveProgrammaticSource(Some(BuildFlagReason(resolution))) == resolution.source
    ensures BuildFlagReason(resolution.(reason := Some(BuildFlagReason(resolution)))) == BuildFlagReason(resolution)
  {
    PrefixedReason(resolution.source, BuildFlagReason(resolution));
  }

  // --- what a restart restores ---

  predicate LatestSaysHalted(audit: seq<AuditRow>) {
    FindLatest(audit).Some? && FindLatest(audit).value.halted
  }

  /** After a restore the flag is HALTED exactly when the newest audit row, or today's risk row, says so. */
  lemma RestoreExact(audit: seq<AuditRow>, risk: map<int, RiskRow>, flag: Option<string>, at: int)
    ensures RestoredFlag(audit, risk, flag, at).Some? <==> LatestSaysHalted(audit) || HaltedOn(risk, UtcDay(at))
  {
  }

  /** A flag restored into a fresh process carries the resolution's source. */
  lemma RestoredReason(audit: seq<AuditRow>, risk: map<int, RiskRow>, at: int)
    requires RestoredFlag(audit, risk, None, at).Some?
    ensures SourceName(ResolutionAt(audit, risk, at).source) + ":" <= RestoredFlag(audit, risk, None, at).value
  {
    hide SourceName;
  }

  /** A freshly restored halt can be lifted by the rate-limit auto-clear exactly when its resolved source is the rate limiter. */
  lemma RestoredOwnership(audit: seq<AuditRow>, risk: map<int, RiskRow>, at: int)
    requires RestoredFlag(audit, risk, None, at).Some?
    ensures OwnedByRateLimit(RestoredFlag(audit, risk, None, at)) <==> ResolutionAt(audit, risk, at).source == RATE_LIMIT
  {
    RestoredReason(audit, risk, at);
    PrefixedReason(ResolutionAt(audit, risk, at).source, RestoredFlag(audit, risk, None, at).value);
  }

  /** The source a risk row's reason names: its text, or the text before its first colon, is the source's name; anything else is OTHER. */
  lemma SourceOfReason(reason: string, source: HaltSource)
    requires source != OTHER
    ensures ResolveProgrammaticSource(Some(reason)) == source <==> reason == SourceName(source) || SourceName(source) + ":" <= reason
    ensures ResolveProgrammaticSource(None) == OTHER
  {
    hide SourceName, SourceOfToken;
    SourceNameHasNoColon(source);
    SourceNameRoundTrip(source);
    var i := IndexOfColon(reason);
    assert i < |reason| ==> reason[..i + 1] == reason[..i] + ":";
    assert i == |reason| ==> reason[..i] == reason;
    if SourceOfToken(reason[..i]) == source {
      NamedToken(reason[..i], source);
    }
    if SourceName(source) + ":" <= reason {
      PrefixedReason(source, reason);
    } else if reason == SourceName(source) {
      ColonAt(reason, |reason|);
    }
  }

  lemma NamedToken(token: string, source: HaltSource)
    requires source != OTHER && SourceOfToken(token) == source
    ensures token == SourceName(source)
  {
  }

  /** The source an audit row's actor names: SYSTEM: and a source's name, or an operator for any actor without that prefix. */
  lemma SourceOfActor(actorSub: string, source: HaltSource)
    requires source != OTHER
    ensures ResolveSourceFromActor(actorSub) == source
            <==> actorSub == "SYSTEM:" + SourceName(source) || (source == OPERATOR && !("SYSTEM:" <= actorSub))
  {
    hide SourceName, SourceOfToken;
    SourceNameRoundTrip(source);
    if "SYSTEM:" <= actorSub {
      var token := actorSub[7..];
      assert actorSub == "SYSTEM:" + token;
      assert token == SourceName(source) <==> actorSub == "SYSTEM:" + SourceName(source) by {
        assert ("SYSTEM:" + SourceName(source))[7..] == SourceName(source);
      }
      if SourceOfToken(token) == source {
        NamedToken(token, source);
      }
    }
  }

  /** A reason under its source's name, which it may carry already. */
  predicate IsNamed(flag: Option<string>, source: HaltSource, reason: string) {
    flag == Some(if SourceName(source) + ":" <= reason then reason else SourceName(source) + ":" + reason)
  }

  /**
   * The reason text of a restored halt. Where only today's risk row is halted it is that row's reason under the source it
   * names; a missing reason reads as the newest audit row's, or "programmatic", under "other". Where the newest audit
   * row is halted it is that row's reason: under its actor's source when the row is as new as today or no risk row is
   * halted, and otherwise under the source of today's risk row.
   */
  lemma RestoredText(audit: seq<AuditRow>, risk: map<int, RiskRow>, at: int)
    ensures var flag, latest, day := RestoredFlag(audit, risk, None, at), FindLatest(audit), at / 86_400_000;
            var reason := if day in risk then risk[day].haltReason else None;
            && (!LatestSaysHalted(audit) && !HaltedOn(risk, day) ==> flag == None)
            && (!LatestSaysHalted(audit) && HaltedOn(risk, day) && reason.Some? ==>
                  IsNamed(flag, ResolveProgrammaticSource(reason), reason.value))
            && (!LatestSaysHalted(audit) && HaltedOn(risk, day) && reason.None? ==>
                  IsNamed(flag, OTHER, if latest.Some? then latest.value.reason else "programmatic"))
            && (LatestSaysHalted(audit) && (!HaltedOn(risk, day) || latest.value.at >= day * 86_400_000) ==>
                  flag == Some(SourceName(ResolveSourceFromActor(latest.value.actorSub)) + ":" + latest.value.reason))
            && (LatestSaysHalted(audit) && HaltedOn(risk, day) && latest.value.at < day * 86_400_000 ==>
                  flag == Some(SourceName(ResolveProgrammaticSource(reason)) + ":" + latest.value.reason))
  {
    hide FindLatest, SourceName, ResolveSourceFromActor, IndexOfColon, SourceOfToken;
  }

  /** A flag that is up already keeps its reason through a restore that finds a halt on record, and is lifted by one that finds none. */
  lemma RestoredOverFlag(audit: seq<AuditRow>, risk: map<int, RiskRow>, reason: string, at: int)
    ensures RestoredFlag(audit, risk, Some(reason), at)
         == if LatestSaysHalted(audit) || HaltedOn(risk, at / 86_400_000) then Some(reason) else None
  {
    hide FindLatest, SourceName, ResolveSourceFromActor, ResolveProgrammaticSource;
  }

  /** The source a restore reports: the newest audit row's actor's, an operator without one, and today's risk row's where only that is halted or the halted audit row is older than today. */
  lemma RestoredSource(audit: seq<AuditRow>, risk: map<int, RiskRow>, at: int)
    ensures var latest, day := FindLatest(audit), at / 86_400_000;
            ResolutionAt(audit, risk, at).source
            == if HaltedOn(risk, day) && (!LatestSaysHalted(audit) || latest.value.at < day * 86_400_000) then ResolveProgrammaticSource(risk[day].haltReason)
               else if latest.Some? then ResolveSourceFromActor(latest.value.actorSub) else OPERATOR
  {
    hide FindLatest, ResolveSourceFromActor, ResolveProgrammaticSource;
  }

  /**
   * Both halted, and the audit row older than today: the restored halt names the programmatic source and gives the old
   * operator's reason, so that neither of the two halts can be read from it.
   */
  lemma MixedRestore(operatorReason: string, day: int)
    requires day > 0
    ensures var audit := [AuditRow(day * 86_400_000 - 1, "operator", operatorReason, true)];
            var risk := map[day := RiskRow(true, Some("market_stress:breadth"))];
            RestoredFlag(audit, risk, None, day * 86_400_000) == Some("market_stress:" + operatorReason)
  {
    hide RestoredFlag, FindLatest, SourceName, ResolveProgrammaticSource;
    var row := AuditRow(day * 86_400_000 - 1, "operator", operatorReason, true);
    var risk := map[day := RiskRow(true, Some("market_stress:breadth"))];
    FindLatestSnoc([], row);
    assert [] + [row] == [row];
    RestoredText([row], risk, day * 86_400_000);
    StressNames();
    assert "market_stress" + ":" + operatorReason == "market_stress:" + operatorReason;
  }

  lemma StressNames()
    ensures SourceName(MARKET_STRESS) == "market_stress"
    ensures ResolveProgrammaticSource(Some("market_stress:breadth")) == MARKET_STRESS
  {
    hide IndexOfColon;
    var reason := "market_stress:breadth";
    assert SourceName(MARKET_STRESS) + ":" == reason[..14];
    PrefixedReason(MARKET_STRESS, reason);
  }

  /** A programmatic halt comes back from a restart of its day word for word: its source, its reason, its leg. */
  lemma ProgrammaticReasonSurvives(w: World, source: HaltSource, detail: string, at: int)
    requires w.flag.None? && !LatestSaysHalted(w.audit) && !HaltedOn(w.risk, UtcDay(at))
    ensures var reason := SourceName(source) + ":" + detail;
            var halted := Run(w, [PersistHalt(UtcDay(at), reason), ProgrammaticFlag(source, detail)]);
            halted.flag == Some(reason) && Apply(halted, Restart(at, false)).flag == Some(reason)
  {
    hide SourceName, RestoredFlag, FindLatest, Run;
    var reason := SourceName(source) + ":" + detail;
    RunTwo(w, PersistHalt(UtcDay(at), reason), ProgrammaticFlag(source, detail));
    PrefixedReason(source, reason);
    var halted := Run(w, [PersistHalt(UtcDay(at), reason), ProgrammaticFlag(source, detail)]);
    RestoredText(halted.audit, halted.risk, at);
    assert UtcDay(at) == at / 86_400_000;
    RestartApplied(halted, at);
  }

  /** An operator halt comes back under its reason as the audit row keeps it: the first 256 characters. */
  lemma OperatorReasonSurvives(w: World, actorSub: string, reason: string, at: int, restartAt: int)
    requires w.flag.None? && w.pending == [] && RowsUpTo(w.audit, at) && !HaltedOn(w.risk, UtcDay(restartAt))
    requires !("SYSTEM:" <= actorSub)
    ensures var halted := Run(w, [BeginHalt(actorSub, reason, at), Continue(0, true)]);
            && halted.flag == Some("operator:" + reason)
            && Apply(halted, Restart(restartAt, false)).flag == Some("operator:" + if |reason| <= 256 then reason else reason[..256])
  {
    hide RestoredFlag, FindLatest, Run, Apply, SourceName, ResolveSourceFromActor, ResolveProgrammaticSource;
    RunTwo(w, BeginHalt(actorSub, reason, at), Continue(0, true));
    BeginHaltWhileRunning(w, actorSub, reason, at);
    FlipApplied(Apply(w, BeginHalt(actorSub, reason, at)), reason);
    FindLatestSnoc(w.audit, HaltRow(actorSub, reason, at));
    var halted := Run(w, [BeginHalt(actorSub, reason, at), Continue(0, true)]);
    RestoredText(halted.audit, halted.risk, restartAt);
    assert UtcDay(restartAt) == restartAt / 86_400_000;
    RestartApplied(halted, restartAt);
    SourceOfActor(actorSub, OPERATOR);
    OperatorName(reason);
    OperatorName(TruncateReason(reason));
  }

  lemma OperatorName(text: string)
    ensures SourceName(OPERATOR) + ":" + text == "operator:" + text
  {
    assert "operator" + ":" == "operator:";
  }

  /** A day's reason lets it resume by itself exactly when it is a breadth or same-bar halt of market stress, with or without more behind a colon. */
  lemma EligibleReasons(risk: map<int, RiskRow>, day: int)
    ensures StressEligible(risk, day)
            <==> HaltedOn(risk, day) && risk[day].haltReason.Some?
                 && (IsLegReason(risk[day].haltReason.value, "breadth") || IsLegReason(risk[day].haltReason.value, "same_bar"))
  {
    hide IndexOfColon, IsLegReason;
    if HaltedOn(risk, day) && risk[day].haltReason.Some? {
      LegOfReason(risk[day].haltReason.value, "breadth");
      LegOfReason(risk[day].haltReason.value, "same_bar");
    }
  }

  predicate IsLegReason(reason: string, leg: string) {
    reason == "market_stress:" + leg || "market_stress:" + leg + ":" <= reason
  }

  lemma LegOfReason(reason: string, leg: string)
    requires forall j :: 0 <= j < |leg| ==> leg[j] != ':'
    ensures StressLeg(reason) == Some(leg) <==> IsLegReason(reason, leg)
  {
    hide IsLegReason, StressLeg;
    if IsLegReason(reason, leg) {
      LegRead(reason, leg);
    }
    if StressLeg(reason) == Some(leg) {
      LegWritten(reason, leg);
    }
  }

  lemma LegRead(reason: string, leg: string)
    requires IsLegReason(reason, leg) && forall j :: 0 <= j < |leg| ==> leg[j] != ':'
    ensures StressLeg(reason) == Some(leg)
  {
    hide IndexOfColon;
    var head, tail := "market_stress:" + leg, reason[14..];
    assert head <= reason;
    assert reason[..14] == head[..14] == "market_stress:";
    assert reason[..13] == "market_stress" && reason[13] == ':';
    ColonAt(reason, 13);
    assert tail[..|leg|] == reason[14..14 + |leg|] == head[14..] == leg;
    if reason != head {
      assert (head + ":")[14 + |leg|] == ':';
    }
    ColonAt(tail, |leg|);
  }

  lemma LegWritten(reason: string, leg: string)
    requires StressLeg(reason) == Some(leg)
    ensures IsLegReason(reason, leg)
  {
    hide IndexOfColon;
    var i := IndexOfColon(reason);
    var tail := reason[i + 1..];
    var k := IndexOfColon(tail);
    assert reason == "market_stress:" + tail;
    if k < |tail| {
      assert tail[..k + 1] == leg + ":";
      assert reason[..15 + k] == "market_stress:" + leg + ":";
    } else {
      assert tail[..k] == tail;
    }
  }

  /** A rate-limit halt comes back under its own source, with the reason its audit row keeps. */
  lemma RateLimitReasonSurvives(w: World, detail: string, at: int, restartAt: int)
    requires w.flag.None? && w.pending == [] && RowsUpTo(w.audit, at) && !HaltedOn(w.risk, UtcDay(restartAt))
    ensures var halted := Run(w, [RateLimitEngage(detail, at), Continue(0, true)]);
            var kept := "RATE_LIMIT_BAN:" + detail;
            && halted.flag == Some("rate_limit:" + detail)
            && Apply(halted, Restart(restartAt, false)).flag == Some("rate_limit:" + if |kept| <= 256 then kept else kept[..256])
  {
    hide RestoredFlag, FindLatest, Run, SourceName, ResolveSourceFromActor, ResolveProgrammaticSource;
    RunTwo(w, RateLimitEngage(detail, at), Continue(0, true));
    var row := RateLimitRow("RATE_LIMIT_BAN:" + detail, at, true);
    var begun := Apply(w, RateLimitEngage(detail, at));
    assert begun.pending == [Append(row)] && begun.pending[0] == Append(row);
    FindLatestSnoc(w.audit, row);
    var halted := Run(w, [RateLimitEngage(detail, at), Continue(0, true)]);
    RestoredText(halted.audit, halted.risk, restartAt);
    assert UtcDay(restartAt) == restartAt / 86_400_000;
    RestartApplied(halted, restartAt);
    RateLimitActor();
    RateLimitName(detail);
    RateLimitName(TruncateReason("RATE_LIMIT_BAN:" + detail));
  }

  lemma RateLimitName(text: string)
    ensures SourceName(RATE_LIMIT) + ":" + text == "rate_limit:" + text
  {
    assert "rate_limit" + ":" == "rate_limit:";
  }

  // --- who may change the flag, and the durable rows ---

  /** The step is the last write of a resume, an operator's or the risk gate's, that finds the flag its to lift. */
  predicate CompletesResume(w: World, step: Step) {
    && step.Continue? && step.ok && step.index < |w.pending|
    && (w.pending[step.index] == FlipResume(true)
        || w.pending[step.index] == StressFlag("breadth") || w.pending[step.index] == StressFlag("same_bar"))
  }

  /** The step is the flip of a halt begun while RUNNING. */
  predicate CompletesHalt(w: World, step: Step) {
    step.Continue? && step.ok && step.index < |w.pending| && w.pending[step.index].FlipHalt? && !w.pending[step.index].wasHalted
  }

  /**
   * A halt in force keeps the reason it began with. Only three things touch it: the flip of an operator halt begun while
   * RUNNING takes it over, and a completing resume, or the rate limiter's auto-clear of its own, lifts it.
   */
  lemma ReasonIsNeverOverwritten(w: World, step: Step)
    requires w.flag.Some? && !step.Restart?
    ensures Apply(w, step).flag
         == if CompletesHalt(w, step) then Some("operator:" + w.pending[step.index].reason)
            else if CompletesResume(w, step) || (step.RateLimitAutoClear? && "rate_limit:" <= w.flag.value) then None
            else w.flag
  {
    hide StressEligible, StressLeg;
    if CompletesHalt(w, step) {
      OperatorName(w.pending[step.index].reason);
    }
    RateLimitName("");
    assert "rate_limit:" + "" == "rate_limit:";
    assert SourceName(RATE_LIMIT) + ":" + "" == SourceName(RATE_LIMIT) + ":";
  }

  /** A halt comes from one of three steps: an operator halt's flip, a programmatic halt, or the rate limiter's engage. */
  lemma FlagIsRaisedBy(w: World, step: Step)
    requires w.flag.None? && !step.Restart?
    ensures Apply(w, step).flag
         == if CompletesHalt(w, step) then Some("operator:" + w.pending[step.index].reason)
            else if step.ProgrammaticFlag? then Some(SourceName(step.source) + ":" + step.detail)
            else if step.RateLimitEngage? then Some("rate_limit:" + step.detail)
            else None
  {
    hide StressEligible, StressLeg;
    if CompletesHalt(w, step) {
      OperatorName(w.pending[step.index].reason);
    }
    if step.RateLimitEngage? {
      RateLimitName(step.detail);
    }
  }

  /** A day's risk row changes in two ways only: a first halt is written, and a clear of that day lifts it. */
  lemma RiskRowStep(w: World, step: Step, day: int)
    ensures HaltedOn(Apply(w, step).risk, day)
            <==> (HaltedOn(w.risk, day) && !ClearsRow(w, step, day)) || (step.PersistHalt? && step.day == day)
    ensures HaltedOn(w.risk, day) && HaltedOn(Apply(w, step).risk, day) ==> Apply(w, step).risk[day] == w.risk[day]
    ensures !HaltedOn(w.risk, day) && step.PersistHalt? && step.day == day ==> Apply(w, step).risk[day] == RiskRow(true, Some(step.haltReason))
  {
    hide RestoredFlag, StressEligible, StressLeg, SourceName, OwnedByRateLimit;
  }

  // --- one process lifetime ---

  /** No operation is under way that could lift a halt. */
  ghost predicate NoResumeInFlight(pending: seq<Pending>) {
    forall i :: 0 <= i < |pending| ==> pending[i].FlipHalt? || pending[i].Append?
  }

  /** HALTED for a reason the rate-limit auto-clear does not own, with no resume under way. */
  ghost predicate OperatorHeld(w: World) {
    w.flag.Some? && !OwnedByRateLimit(w.flag) && NoResumeInFlight(w.pending)
  }

  /** The step begins no resume, neither an operator's nor the risk gate's. */
  predicate BeginsNoResume(w: World, step: Step) {
    !step.BeginResume? && (step.StressTick? ==> !StressEligible(w.risk, step.day))
  }

  lemma OperatorReason(reason: string)
    ensures !OwnedByRateLimit(Some(SourceName(OPERATOR) + ":" + reason))
  {
    PrefixedReason(OPERATOR, SourceName(OPERATOR) + ":" + reason);
  }

  lemma NoResumeStep(w: World, step: Step)
    requires NoResumeInFlight(w.pending) && !step.Restart?
    ensures NoResumeInFlight(Apply(w, step).pending) <==> BeginsNoResume(w, step)
  {
    hide StressLeg, SourceName, OwnedByRateLimit;
    var after := Apply(w, step);
    if !BeginsNoResume(w, step) {
      assert !after.pending[|w.pending|].FlipHalt? && !after.pending[|w.pending|].Append?;
    }
  }

  /** Without a restart, such a halt ends its step in that state exactly when the step begins no resume. */
  lemma OperatorHeldStep(w: World, step: Step)
    requires OperatorHeld(w) && !step.Restart?
    ensures OperatorHeld(Apply(w, step)) <==> BeginsNoResume(w, step)
  {
    hide OwnedByRateLimit, SourceName, StressEligible, NoResumeInFlight;
    NoResumeStep(w, step);
    assert NoResumeInFlight(w.pending);
    if step.Continue? && step.index < |w.pending| {
      PendingKind(w.pending, step.index);
      if w.pending[step.index].FlipHalt? {
        OperatorReason(w.pending[step.index].reason);
      }
    }
  }

  lemma PendingKind(pending: seq<Pending>, i: nat)
    requires NoResumeInFlight(pending) && i < |pending|
    ensures pending[i].FlipHalt? || pending[i].Append?
  {
  }

  /** One process lifetime in which every step, where it is taken, begins no resume. */
  ghost predicate NoResumeBegins(w: World, steps: seq<Step>)
    decreases |steps|
  {
    steps != [] ==> !steps[0].Restart? && BeginsNoResume(w, steps[0]) && NoResumeBegins(Apply(w, steps[0]), steps[1..])
  }

  /**
   * Within one process lifetime only a resume lifts such a halt, an operator's or the risk gate's: no interleaving of
   * rate-limit engages and auto-clears, programmatic halts, logins and half-finished halts does.
   */
  lemma {:induction false} OperatorHaltIsHeld(w: World, steps: seq<Step>)
    requires OperatorHeld(w) && NoResumeBegins(w, steps)
    ensures OperatorHeld(Run(w, steps))
    decreases |steps|
  {
    hide OperatorHeld, BeginsNoResume, Apply;
    if steps != [] {
      OperatorHeldStep(w, steps[0]);
      OperatorHaltIsHeld(Apply(w, steps[0]), steps[1..]);
    }
  }

  lemma {:induction false} NoResumeRun(w: World, steps: seq<Step>)
    requires NoResumeInFlight(w.pending) && NoResumeBegins(w, steps)
    ensures NoResumeInFlight(Run(w, steps).pending)
    decreases |steps|
  {
    hide NoResumeInFlight, BeginsNoResume, Apply;
    if steps != [] {
      NoResumeStep(w, steps[0]);
      NoResumeRun(Apply(w, steps[0]), steps[1..]);
    }
  }

  /** The flip of a halt begun while RUNNING takes the flag over, whatever holds it by then. */
  lemma FlipHolds(w: World, i: nat)
    requires i < |w.pending| && w.pending[i].FlipHalt? && !w.pending[i].wasHalted && NoResumeInFlight(w.pending)
    ensures OperatorHeld(Apply(w, Continue(i, true)))
  {
    hide OwnedByRateLimit, SourceName;
    OperatorReason(w.pending[i].reason);
  }

  /**
   * An operator halt begun while RUNNING, with anything but a resume or a restart between its audit row and its flag
   * flip, is in force from the flip on, through anything but a resume or a restart.
   */
  lemma OperatorHaltEngaged(w: World, actorSub: string, reason: string, at: int, between: seq<Step>, i: nat, after: seq<Step>)
    requires w.flag.None? && NoResumeInFlight(w.pending)
    requires NoResumeBegins(Apply(w, BeginHalt(actorSub, reason, at)), between)
    requires var mid := Run(Apply(w, BeginHalt(actorSub, reason, at)), between);
             && i < |mid.pending| && mid.pending[i] == FlipHalt(false, reason)
             && NoResumeBegins(Apply(mid, Continue(i, true)), after)
    ensures OperatorHeld(Run(Apply(Run(Apply(w, BeginHalt(actorSub, reason, at)), between), Continue(i, true)), after))
  {
    hide Apply, NoResumeBegins, NoResumeInFlight, OperatorHeld;
    var begin := BeginHalt(actorSub, reason, at);
    NoResumeStep(w, begin);
    NoResumeRun(Apply(w, begin), between);
    var mid := Run(Apply(w, begin), between);
    FlipHolds(mid, i);
    OperatorHaltIsHeld(Apply(mid, Continue(i, true)), after);
  }

  /** The flip of an operator halt, at whatever point it comes, and an auto-clear after it: the flag is up exactly unless the halt was begun over one that the rate limiter held, or that is gone by now. */
  lemma HaltThenAutoClear(w: World, i: nat, detail: string, clearedAt: int)
    requires i < |w.pending| && w.pending[i].FlipHalt?
    ensures var halted := Apply(w, Continue(i, true));
            && (halted.flag.None? <==> w.pending[i].wasHalted && w.flag.None?)
            && (Apply(halted, RateLimitAutoClear(detail, clearedAt)).flag.None?
                <==> w.pending[i].wasHalted && (w.flag.None? || OwnedByRateLimit(w.flag)))
  {
    hide OwnedByRateLimit, SourceName;
    OperatorReason(w.pending[i].reason);
    NotOwnedWhenRunning();
  }

  /**
   * An auto-clear between a halt's audit row and its flip: the halt completes, and the flag is down exactly when the
   * rate limiter held it. Once the auto-clear's own row is written, a restart comes up RUNNING as well.
   */
  lemma HaltLostToAutoClear(w: World, actorSub: string, reason: string, at: int, detail: string, clearedAt: int, restartAt: int)
    requires RowsUpTo(w.audit, at) && at <= clearedAt
    ensures var lost := Run(Apply(w, BeginHalt(actorSub, reason, at)), [RateLimitAutoClear(detail, clearedAt), Continue(|w.pending|, true)]);
            && (lost.flag.None? <==> OwnedByRateLimit(w.flag))
            && (OwnedByRateLimit(w.flag) && !HaltedOn(w.risk, UtcDay(restartAt)) ==>
                  Apply(Apply(lost, Continue(|w.pending|, true)), Restart(restartAt, false)).flag.None?)
  {
    hide OwnedByRateLimit, SourceName, Run, RestoredFlag, FindLatest, RateLimitRow, HaltRow;
    var begun := Apply(w, BeginHalt(actorSub, reason, at));
    RunTwo(begun, RateLimitAutoClear(detail, clearedAt), Continue(|w.pending|, true));
    NotOwnedWhenRunning();
    OperatorReason(reason);
    var cleared := Apply(begun, RateLimitAutoClear(detail, clearedAt));
    var lost := Apply(cleared, Continue(|w.pending|, true));
    assert begun.pending == w.pending + [FlipHalt(w.flag.Some?, reason)];
    assert cleared.pending[|w.pending|] == FlipHalt(w.flag.Some?, reason);
    if OwnedByRateLimit(w.flag) {
      OwnedIsUp(w.flag);
      var row := RateLimitRow(detail, clearedAt, false);
      assert cleared.pending == begun.pending + [Append(row)];
      assert lost.pending == w.pending + [Append(row)];
      assert lost.pending[|w.pending|] == Append(row);
      FindLatestSnoc(w.audit, HaltRow(actorSub, reason, at));
      FindLatestSnoc(begun.audit, row);
      RowOf(actorSub, reason, at, detail, clearedAt);
      RestoreExact(begun.audit + [row], w.risk, None, restartAt);
    }
  }

  lemma OwnedIsUp(flag: Option<string>)
    ensures OwnedByRateLimit(flag) ==> flag.Some?
  {
  }

  lemma RowOf(actorSub: string, reason: string, at: int, detail: string, clearedAt: int)
    ensures HaltRow(actorSub, reason, at).at == at && HaltRow(actorSub, reason, at).halted
    ensures RateLimitRow(detail, clearedAt, false).at == clearedAt && !RateLimitRow(detail, clearedAt, false).halted
  {
    hide SourceName;
  }

  lemma RunOne(w: World, step: Step)
    ensures Run(w, [step]) == Apply(w, step)
  {
    hide Apply;
    assert Run(Apply(w, step), []) == Apply(w, step);
  }

  lemma RunTwo(w: World, first: Step, second: Step)
    ensures Run(w, [first, second]) == Apply(Apply(w, first), second)
  {
    hide Apply;
    assert [first, second][1..] == [second];
    RunOne(Apply(w, first), second);
  }

  lemma NotOwnedWhenRunning()
    ensures !OwnedByRateLimit(None)
  {
  }

  function StressPath(w: World, day: int): seq<Step> {
    [StressTick(day), Continue(|w.pending|, true), Continue(|w.pending|, true)]
  }

  /**
   * The gate's automatic resume run to its end over any halt, an operator's included: it lifts the halt exactly when
   * the day's row carries an eligible stress leg, and otherwise does nothing. A restart brings back a halt that is on record.
   */
  lemma StressPathExact(w: World, day: int, restartAt: int)
    requires w.flag.Some?
    ensures var resumed := Run(w, StressPath(w, day));
            && (resumed.flag.None? <==> StressEligible(w.risk, day))
            && (!StressEligible(w.risk, day) ==> resumed == w)
            && (LatestSaysHalted(w.audit) ==> Apply(resumed, Restart(restartAt, false)).flag.Some?)
  {
    hide StressLeg, RestoredFlag, FindLatest, LatestSaysHalted, Run;
    var n := |w.pending|;
    RunThree(w, StressTick(day), Continue(n, true), Continue(n, true));
    if StressEligible(w.risk, day) {
      var leg := StressLeg(w.risk[day].haltReason.value).value;
      var ticked := Apply(w, StressTick(day));
      assert ticked.pending == w.pending + [StressClear(day, leg)];
      assert ticked.pending[n] == StressClear(day, leg);
      assert ticked.pending[..n] + ticked.pending[n + 1..] == w.pending;
      var cleared := Apply(ticked, Continue(n, true));
      assert cleared.pending == w.pending + [StressFlag(leg)];
      assert cleared.pending[n] == StressFlag(leg);
    }
    var resumed := Run(w, StressPath(w, day));
    RestoreExact(resumed.audit, resumed.risk, None, restartAt);
  }

  lemma RunThree(w: World, first: Step, second: Step, third: Step)
    ensures Run(w, [first, second, third]) == Apply(Apply(Apply(w, first), second), third)
  {
    hide Apply;
    assert [first, second, third][1..] == [second, third];
    RunTwo(Apply(w, first), second, third);
  }

  /** An operator halts; later that day the gate persists a breadth halt, and when breadth recovers the operator's halt goes with it. */
  lemma StressLiftsOperatorHalt(at: int)
    ensures var held := Run(World([], map[], None, []),
                            [BeginHalt("operator", "maintenance", at), Continue(0, true), PersistHalt(UtcDay(at), "market_stress:breadth")]);
            && OperatorHeld(held) && StressEligible(held.risk, UtcDay(at))
            && Run(held, StressPath(held, UtcDay(at))).flag.None?
  {
    hide OwnedByRateLimit, UtcDay, StressPath, StressEligible;
    RunThree(World([], map[], None, []), BeginHalt("operator", "maintenance", at), Continue(0, true), PersistHalt(UtcDay(at), "market_stress:breadth"));
    OperatorReason("maintenance");
    var held := Run(World([], map[], None, []),
                    [BeginHalt("operator", "maintenance", at), Continue(0, true), PersistHalt(UtcDay(at), "market_stress:breadth")]);
    BreadthIsEligible(held.risk, UtcDay(at));
    StressPathExact(held, UtcDay(at), at);
  }

  lemma BreadthIsEligible(risk: map<int, RiskRow>, day: int)
    requires day in risk && risk[day] == RiskRow(true, Some("market_stress:breadth"))
    ensures StressEligible(risk, day)
  {
    hide IndexOfColon;
    var reason := "market_stress:breadth";
    ColonAt(reason, 13);
    assert reason[..13] == "market_stress" && reason[14..] == "breadth";
    ColonAt("breadth", 7);
    assert "breadth"[..7] == "breadth";
  }

  lemma ColonAt(s: string, i: nat)
    requires i <= |s| && (i < |s| ==> s[i] == ':') && forall j :: 0 <= j < i ==> s[j] != ':'
    ensures IndexOfColon(s) == i
  {
    var k := IndexOfColon(s);
    assert forall j :: 0 <= j < k ==> s[j] != ':';
  }

  // --- restarts ---

  lemma FindLatestSnoc(audit: seq<AuditRow>, row: AuditRow)
    ensures FindLatest(audit + [row]) == if FindLatest(audit).Some? && FindLatest(audit).value.at > row.at then FindLatest(audit) else Some(row)
  {
    assert (audit + [row])[..|audit|] == audit;
  }

  predicate ByOperator(row: AuditRow) {
    row.halted && !(PROGRAMMATIC_ACTOR_PREFIX <= row.actorSub)
  }

  ghost predicate NoRiskFromRateLimit(risk: map<int, RiskRow>) {
    forall day :: day in risk ==> ResolveProgrammaticSource(risk[day].haltReason) != RATE_LIMIT
  }

  /** An operator's halt is what the durable state says, and nothing but halts is under way. */
  ghost predicate OnRecord(w: World) {
    && !OwnedByRateLimit(w.flag)
    && (forall i :: 0 <= i < |w.pending| ==> w.pending[i].FlipHalt?)
    && FindLatest(w.audit).Some? && ByOperator(FindLatest(w.audit).value)
    && NoRiskFromRateLimit(w.risk)
  }

  /** Such a halt that is also in force. */
  ghost predicate DurablyHeld(w: World) {
    OnRecord(w) && w.flag.Some?
  }

  /** No resume begins, no rate-limit row and no login that reads RUNNING is written, and operators' subjects are not SYSTEM: names. */
  predicate SparesRecord(w: World, step: Step) {
    && BeginsNoResume(w, step) && !step.RateLimitEngage?
    && (step.BeginHalt? ==> !(PROGRAMMATIC_ACTOR_PREFIX <= step.actorSub))
    && (step.LoginAudit? ==> w.flag.Some? && !(PROGRAMMATIC_ACTOR_PREFIX <= step.actorSub))
    && (step.PersistHalt? ==> ResolveProgrammaticSource(Some(step.haltReason)) != RATE_LIMIT)
    && (step.ProgrammaticFlag? ==> step.source != RATE_LIMIT)
  }

  lemma RestartKeepsOperatorHalt(audit: seq<AuditRow>, risk: map<int, RiskRow>, at: int)
    requires FindLatest(audit).Some? && ByOperator(FindLatest(audit).value) && NoRiskFromRateLimit(risk)
    ensures RestoredFlag(audit, risk, None, at).Some? && !OwnedByRateLimit(RestoredFlag(audit, risk, None, at))
  {
    RestoreExact(audit, risk, None, at);
    RestoredOwnership(audit, risk, at);
  }

  lemma RiskStep(w: World, step: Step)
    requires NoRiskFromRateLimit(w.risk)
    requires step.PersistHalt? ==> ResolveProgrammaticSource(Some(step.haltReason)) != RATE_LIMIT
    ensures NoRiskFromRateLimit(Apply(w, step).risk)
  {
    hide RestoredFlag, FindLatest, SourceName, IndexOfColon, SourceOfToken;
  }

  lemma OnRecordStep(w: World, step: Step)
    requires OnRecord(w) && SparesRecord(w, step)
    ensures OnRecord(Apply(w, step)) && (w.flag.Some? ==> Apply(w, step).flag.Some?)
  {
    hide OwnedByRateLimit, SourceName, RestoredFlag, FindLatest, NoRiskFromRateLimit, ResolveProgrammaticSource, StressEligible, StressLeg;
    RiskStep(w, step);
    match step
    case BeginHalt(actorSub, reason, at) =>
      FindLatestSnoc(w.audit, HaltRow(actorSub, reason, at));
    case LoginAudit(actorSub, at) =>
      FindLatestSnoc(w.audit, AuditRow(at, actorSub, "login", true));
    case Continue(index, ok) =>
      if index < |w.pending| {
        OperatorReason(w.pending[index].reason);
      }
    case ProgrammaticFlag(source, detail) =>
      PrefixedReason(source, SourceName(source) + ":" + detail);
    case Restart(at, keyPermissionRow) =>
      var row := AuditRow(at, "system", "key_permission", true);
      FindLatestSnoc(w.audit, row);
      RestartKeepsOperatorHalt(if keyPermissionRow then w.audit + [row] else w.audit, w.risk, at);
    case _ =>
  }

  /** A run in which every step, where it is taken, spares the record. Restarts are among them. */
  ghost predicate SparesRun(w: World, steps: seq<Step>)
    decreases |steps|
  {
    steps != [] ==> SparesRecord(w, steps[0]) && SparesRun(Apply(w, steps[0]), steps[1..])
  }

  lemma {:induction false} OnRecordRun(w: World, steps: seq<Step>)
    requires OnRecord(w) && SparesRun(w, steps)
    ensures OnRecord(Run(w, steps)) && (w.flag.Some? ==> Run(w, steps).flag.Some?)
    decreases |steps|
  {
    hide OnRecord, SparesRecord, Apply;
    if steps != [] {
      OnRecordStep(w, steps[0]);
      OnRecordRun(Apply(w, steps[0]), steps[1..]);
    }
  }

  lemma BeginHaltGoesOnRecord(w: World, actorSub: string, reason: string, at: int)
    requires !OwnedByRateLimit(w.flag) && NoRiskFromRateLimit(w.risk) && RowsUpTo(w.audit, at)
    requires forall i :: 0 <= i < |w.pending| ==> w.pending[i].FlipHalt?
    requires !(PROGRAMMATIC_ACTOR_PREFIX <= actorSub)
    ensures OnRecord(Apply(w, BeginHalt(actorSub, reason, at))) && Apply(w, BeginHalt(actorSub, reason, at)).flag == w.flag
  {
    hide OwnedByRateLimit, FindLatest, NoRiskFromRateLimit;
    FindLatestSnoc(w.audit, HaltRow(actorSub, reason, at));
  }

  lemma FlipOfRecorded(w: World, i: nat)
    requires OnRecord(w) && i < |w.pending| && (w.pending[i].wasHalted ==> w.flag.Some?)
    ensures DurablyHeld(Apply(w, Continue(i, true)))
  {
    hide OwnedByRateLimit, FindLatest, NoRiskFromRateLimit, SourceName;
    OperatorReason(w.pending[i].reason);
  }

  /**
   * A completed operator halt, begun over no rate-limit halt and interleaved with steps that spare its record, survives
   * every further run of such steps, with any number of restarts between any two of them.
   */
  lemma OperatorHaltSurvivesRestarts(w: World, actorSub: string, reason: string, at: int, between: seq<Step>, i: nat, after: seq<Step>)
    requires !OwnedByRateLimit(w.flag) && NoRiskFromRateLimit(w.risk) && RowsUpTo(w.audit, at)
    requires forall k :: 0 <= k < |w.pending| ==> w.pending[k].FlipHalt?
    requires !(PROGRAMMATIC_ACTOR_PREFIX <= actorSub) && SparesRun(Apply(w, BeginHalt(actorSub, reason, at)), between)
    requires var mid := Run(Apply(w, BeginHalt(actorSub, reason, at)), between);
             && i < |mid.pending| && mid.pending[i] == FlipHalt(w.flag.Some?, reason)
             && SparesRun(Apply(mid, Continue(i, true)), after)
    ensures DurablyHeld(Run(Apply(Run(Apply(w, BeginHalt(actorSub, reason, at)), between), Continue(i, true)), after))
  {
    hide Apply, SparesRun, OwnedByRateLimit, NoRiskFromRateLimit, FindLatest;
    BeginHaltGoesOnRecord(w, actorSub, reason, at);
    hide OnRecord;
    var begun := Apply(w, BeginHalt(actorSub, reason, at));
    OnRecordRun(begun, between);
    var mid := Run(begun, between);
    FlipOfRecorded(mid, i);
    OnRecordRun(Apply(mid, Continue(i, true)), after);
  }

  /** No row is newer than `at`. */
  ghost predicate RowsUpTo(audit: seq<AuditRow>, at: int) {
    forall row :: row in audit ==> row.at <= at
  }

  /**
   * What that survival cannot do without: once a rate-limit engage has appended its row over the operator's, a restart
   * hands the halt to the rate limiter, and its auto-clear then lifts it. It does so exactly when the engage row is no
   * older than the restart day's start, or no programmatic halt is in force that day, or that halt is itself the rate limiter's.
   */
  lemma RateLimitRowThenRestart(w: World, detail: string, engagedAt: int, restartAt: int, clearDetail: string, clearedAt: int)
    requires w.flag.Some? && RowsUpTo(w.audit, engagedAt) && engagedAt >= 0
    ensures var engaged := Run(w, [RateLimitEngage(detail, engagedAt), Continue(|w.pending|, true)]);
            var restarted := Apply(engaged, Restart(restartAt, false));
            var day := UtcDay(restartAt);
            && engaged.flag == w.flag
            && restarted.flag.Some?
            && (Apply(restarted, RateLimitAutoClear(clearDetail, clearedAt)).flag.None?
                <==> engagedAt >= day * MS_PER_DAY || !HaltedOn(w.risk, day) || ResolveProgrammaticSource(w.risk[day].haltReason) == RATE_LIMIT)
  {
    hide OwnedByRateLimit, Run, FindLatest, RestoredFlag, ResolveProgrammaticSource, ResolveSourceFromActor, Apply;
    RunTwo(w, RateLimitEngage(detail, engagedAt), Continue(|w.pending|, true));
    var row := RateLimitRow("RATE_LIMIT_BAN:" + detail, engagedAt, true);
    EngageApplied(w, detail, engagedAt);
    var audit := w.audit + [row];
    FindLatestSnoc(w.audit, row);
    RestoreExact(audit, w.risk, None, restartAt);
    RestoredOwnership(audit, w.risk, restartAt);
    var engaged := Run(w, [RateLimitEngage(detail, engagedAt), Continue(|w.pending|, true)]);
    RestartApplied(engaged, restartAt);
    AutoClearApplied(Apply(engaged, Restart(restartAt, false)), clearDetail, clearedAt);
    RateLimitActor();
  }

  /** A completed engage over a halt already in force only adds its row. */
  lemma EngageApplied(w: World, detail: string, at: int)
    requires w.flag.Some?
    ensures Apply(Apply(w, RateLimitEngage(detail, at)), Continue(|w.pending|, true))
         == w.(audit := w.audit + [RateLimitRow("RATE_LIMIT_BAN:" + detail, at, true)])
  {
    hide RateLimitRow;
    var row := RateLimitRow("RATE_LIMIT_BAN:" + detail, at, true);
    var begun := Apply(w, RateLimitEngage(detail, at));
    assert begun.pending == w.pending + [Append(row)];
    assert begun.pending[|w.pending|] == Append(row);
    assert begun.pending[..|w.pending|] + begun.pending[|w.pending| + 1..] == w.pending;
  }

  lemma AutoClearApplied(w: World, detail: string, at: int)
    ensures Apply(w, RateLimitAutoClear(detail, at)).flag == if OwnedByRateLimit(w.flag) then None else w.flag
  {
  }

  lemma RateLimitActor()
    ensures ResolveSourceFromActor(PROGRAMMATIC_ACTOR_PREFIX + SourceName(RATE_LIMIT)) == RATE_LIMIT
  {
    assert (PROGRAMMATIC_ACTOR_PREFIX + SourceName(RATE_LIMIT))[|PROGRAMMATIC_ACTOR_PREFIX|..] == SourceName(RATE_LIMIT);
  }

  /**
   * A login recorded between a halt's audit row and its flag flip carries the RUNNING flag and is newer than the halt
   * row. The halt completes and holds, but a restart restores it exactly when no such login was recorded.
   */
  lemma LoginInsideHaltMasksIt(w: World, actorSub: string, reason: string, at: int, logins: seq<Step>, restartAt: int)
    requires w.flag.None? && w.pending == [] && RowsUpTo(w.audit, at) && !HaltedOn(w.risk, UtcDay(restartAt))
    requires forall i :: 0 <= i < |logins| ==> logins[i].LoginAudit? && logins[i].at >= at
    ensures var completed := Apply(Run(Apply(w, BeginHalt(actorSub, reason, at)), logins), Continue(0, true));
            && completed.flag == Some(SourceName(OPERATOR) + ":" + reason)
            && (Apply(completed, Restart(restartAt, false)).flag.Some? <==> logins == [])
  {
    hide SourceName, RestoredFlag, FindLatest, Apply;
    var begun := Apply(w, BeginHalt(actorSub, reason, at));
    BeginHaltWhileRunning(w, actorSub, reason, at);
    FindLatestSnoc(w.audit, HaltRow(actorSub, reason, at));
    LoginsWhileRunning(begun, logins, at);
    var after := Run(begun, logins);
    FlipApplied(after, reason);
    RestoreExact(after.audit, after.risk, None, restartAt);
    RestartApplied(Apply(after, Continue(0, true)), restartAt);
  }

  lemma BeginHaltWhileRunning(w: World, actorSub: string, reason: string, at: int)
    requires w.flag.None? && w.pending == []
    ensures Apply(w, BeginHalt(actorSub, reason, at))
         == World(w.audit + [HaltRow(actorSub, reason, at)], w.risk, None, [FlipHalt(false, reason)])
  {
  }

  lemma FlipApplied(w: World, reason: string)
    requires w.pending == [FlipHalt(false, reason)]
    ensures Apply(w, Continue(0, true)) == World(w.audit, w.risk, Some(SourceName(OPERATOR) + ":" + reason), [])
  {
  }

  lemma RestartApplied(w: World, at: int)
    ensures Apply(w, Restart(at, false)) == World(w.audit, w.risk, RestoredFlag(w.audit, w.risk, None, at), [])
  {
  }

  lemma LoginApplied(w: World, actorSub: string, at: int)
    ensures Apply(w, LoginAudit(actorSub, at)) == w.(audit := w.audit + [AuditRow(at, actorSub, "login", w.flag.Some?)])
  {
  }

  lemma {:induction false} LoginsWhileRunning(w: World, logins: seq<Step>, at: int)
    requires w.flag.None? && FindLatest(w.audit).Some? && FindLatest(w.audit).value.at >= at
    requires FindLatest(w.audit).value.halted ==> FindLatest(w.audit).value.at == at
    requires forall i :: 0 <= i < |logins| ==> logins[i].LoginAudit? && logins[i].at >= at
    ensures var after := Run(w, logins);
            && after.flag == w.flag && after.pending == w.pending && after.risk == w.risk
            && LatestSaysHalted(after.audit) == (logins == [] && LatestSaysHalted(w.audit))
    decreases |logins|
  {
    hide FindLatest, Apply;
    if logins != [] {
      FindLatestSnoc(w.audit, AuditRow(logins[0].at, logins[0].actorSub, "login", false));
      LoginApplied(w, logins[0].actorSub, logins[0].at);
      LoginsWhileRunning(Apply(w, logins[0]), logins[1..], at);
    }
  }

  /** A key-permission row written at boot says HALTED, and the restore that follows in the same boot obeys it, whatever came before. */
  lemma KeyPermissionRowHaltsTheBoot(w: World, at: int)
    requires RowsUpTo(w.audit, at) && at >= 0
    ensures var booted := Apply(w, Restart(at, true));
            booted.flag.Some? && !OwnedByRateLimit(booted.flag)
  {
    hide RestoredFlag, OwnedByRateLimit, FindLatest, ResolveSourceFromActor;
    var row := AuditRow(at, "system", "key_permission", true);
    FindLatestSnoc(w.audit, row);
    RestoreExact(w.audit + [row], w.risk, None, at);
    RestoredOwnership(w.audit + [row], w.risk, at);
    assert ResolveSourceFromActor("system") == OPERATOR by { SystemActorIsOperator(); }
  }

  lemma SystemActorIsOperator()
    ensures ResolveSourceFromActor("system") == OPERATOR
  {
  }

  // --- resumes ---

  /** A resume that dies after its audit row leaves the halt in force exactly while the restart day's risk row is halted. */
  lemma ResumeThatDies(w: World, actorSub: string, reason: string, at: int, restartAt: int)
    requires RowsUpTo(w.audit, at)
    ensures Apply(Apply(w, BeginResume(actorSub, reason, at)), Restart(restartAt, false)).flag.Some? <==> HaltedOn(w.risk, UtcDay(restartAt))
  {
    hide RestoredFlag, FindLatest;
    FindLatestSnoc(w.audit, ResumeRow(actorSub, reason, at));
    RestoreExact(w.audit + [ResumeRow(actorSub, reason, at)], w.risk, None, restartAt);
  }

  /** Whether the step is one of the two writes that clear a day's risk row. */
  predicate ClearsRow(w: World, step: Step, day: int) {
    && step.Continue? && step.ok && step.index < |w.pending|
    && (w.pending[step.index].ClearRisk? || w.pending[step.index].StressClear?) && w.pending[step.index].day == day
  }

  ghost predicate NeverClears(w: World, steps: seq<Step>, day: int)
    decreases |steps|
  {
    steps != [] ==> !ClearsRow(w, steps[0], day) && NeverClears(Apply(w, steps[0]), steps[1..], day)
  }

  lemma {:induction false} ProgrammaticHaltPersists(w: World, steps: seq<Step>, day: int)
    requires HaltedOn(w.risk, day) && NeverClears(w, steps, day)
    ensures HaltedOn(Run(w, steps).risk, day)
    decreases |steps|
  {
    hide RestoredFlag, FindLatest;
    if steps != [] {
      ProgrammaticHaltPersists(Apply(w, steps[0]), steps[1..], day);
    }
  }

  /** A programmatic halt is in force after every restart of its day, through any run in which its row was never cleared: no unfinished resume lifts it. */
  lemma ProgrammaticHaltSurvives(w: World, steps: seq<Step>, restartAt: int, keyPermissionRow: bool)
    requires HaltedOn(w.risk, UtcDay(restartAt)) && NeverClears(w, steps, UtcDay(restartAt))
    ensures Apply(Run(w, steps), Restart(restartAt, keyPermissionRow)).flag.Some?
  {
    hide RestoredFlag, FindLatest;
    ProgrammaticHaltPersists(w, steps, UtcDay(restartAt));
    var after := Run(w, steps);
    var audit := if keyPermissionRow then after.audit + [AuditRow(restartAt, "system", "key_permission", true)] else after.audit;
    RestoreExact(audit, after.risk, None, restartAt);
  }

  // --- completed resumes ---

  /** The audit row a step writes, if any. */
  function RowAppended(w: World, step: Step): Option<AuditRow> {
    match step
    case BeginHalt(actorSub, reason, at) => Some(HaltRow(actorSub, reason, at))
    case BeginResume(actorSub, reason, at) => Some(ResumeRow(actorSub, reason, at))
    case Continue(index, ok) =>
      if index < |w.pending| && w.pending[index].Append? && ok then Some(w.pending[index].row) else None
    case LoginAudit(actorSub, at) => Some(AuditRow(at, actorSub, "login", w.flag.Some?))
    case Restart(at, keyPermissionRow) => if keyPermissionRow then Some(AuditRow(at, "system", "key_permission", true)) else None
    case _ => None
  }

  function Appended(w: World, steps: seq<Step>): seq<AuditRow>
    decreases |steps|
  {
    if steps == [] then []
    else
      var row := RowAppended(w, steps[0]);
      (if row.Some? then [row.value] else []) + Appended(Apply(w, steps[0]), steps[1..])
  }

  lemma AppendedByStep(w: World, step: Step)
    ensures Apply(w, step).audit == w.audit + if RowAppended(w, step).Some? then [RowAppended(w, step).value] else []
  {
    hide RestoredFlag, OwnedByRateLimit, StressEligible, StressLeg, SourceName;
  }

  lemma {:induction false} AppendedByRun(w: World, steps: seq<Step>)
    ensures Run(w, steps).audit == w.audit + Appended(w, steps)
    decreases |steps|
  {
    hide Apply, RowAppended;
    if steps != [] {
      AppendedByStep(w, steps[0]);
      AppendedByRun(Apply(w, steps[0]), steps[1..]);
    }
  }

  /** Rows older than `row` do not matter once it is written. */
  lemma {:induction false} FindLatestFrom(audit: seq<AuditRow>, row: AuditRow, rest: seq<AuditRow>)
    requires RowsUpTo(audit, row.at)
    ensures FindLatest(audit + [row] + rest) == FindLatest([row] + rest)
    decreases |rest|
  {
    hide FindLatest;
    if rest == [] {
      assert audit + [row] + rest == audit + [row] && [row] + rest == [] + [row];
      FindLatestSnoc(audit, row);
      FindLatestSnoc([], row);
    } else {
      var front, last := rest[..|rest| - 1], rest[|rest| - 1];
      assert audit + [row] + rest == (audit + [row] + front) + [last] && [row] + rest == ([row] + front) + [last];
      FindLatestFrom(audit, row, front);
      FindLatestSnoc(audit + [row] + front, last);
      FindLatestSnoc([row] + front, last);
    }
  }

  /**
   * What a restart makes of a resume, after any run at all: it comes up RUNNING exactly when the newest of the RESUME row
   * and the rows written since says RUNNING, and the restart day's risk row is not halted.
   */
  lemma ResumeRestartsExactly(w: World, actorSub: string, reason: string, at: int, steps: seq<Step>, restartAt: int)
    requires RowsUpTo(w.audit, at)
    ensures var begun := Apply(w, BeginResume(actorSub, reason, at));
            Apply(Run(begun, steps), Restart(restartAt, false)).flag.None?
            <==> && !LatestSaysHalted([ResumeRow(actorSub, reason, at)] + Appended(begun, steps))
                 && !HaltedOn(Run(begun, steps).risk, UtcDay(restartAt))
  {
    hide Run, Appended, RestoredFlag, FindLatest;
    var begun := Apply(w, BeginResume(actorSub, reason, at));
    AppendedByRun(begun, steps);
    FindLatestFrom(w.audit, ResumeRow(actorSub, reason, at), Appended(begun, steps));
    RestoreExact(Run(begun, steps).audit, Run(begun, steps).risk, None, restartAt);
  }

  ghost predicate LoginsFrom(logins: seq<Step>, at: int) {
    && (forall i :: 0 <= i < |logins| ==> logins[i].LoginAudit? && at <= logins[i].at)
    && (forall i, j :: 0 <= i <= j < |logins| ==> logins[i].at <= logins[j].at)
  }

  function LastAt(logins: seq<Step>, at: int): int {
    if logins != [] && logins[|logins| - 1].LoginAudit? then logins[|logins| - 1].at else at
  }

  /** Logins write their rows, the flag's state in each, and do nothing else. */
  lemma {:induction false} LoginsOnlyWrite(w: World, logins: seq<Step>, at: int)
    requires LoginsFrom(logins, at) && RowsUpTo(w.audit, at)
    ensures var after := Run(w, logins);
            && after.flag == w.flag && after.pending == w.pending && after.risk == w.risk
            && RowsUpTo(after.audit, LastAt(logins, at))
            && (if logins == [] then after == w else FindLatest(after.audit).Some? && FindLatest(after.audit).value.halted == w.flag.Some?)
    decreases |logins|
  {
    hide FindLatest, Apply;
    if logins != [] {
      var row := AuditRow(logins[0].at, logins[0].actorSub, "login", w.flag.Some?);
      LoginApplied(w, logins[0].actorSub, logins[0].at);
      FindLatestSnoc(w.audit, row);
      LoginsOnlyWrite(Apply(w, logins[0]), logins[1..], logins[0].at);
    }
  }

  /**
   * A login recorded between a resume's audit row and its flag flip carries the HALTED flag and is newer than the RESUME
   * row. The resume completes, but a restart that day comes up RUNNING exactly when there was no such login, or a later
   * one has read RUNNING since. Whatever else was under way when the resume began makes no difference.
   */
  lemma LoginInsideResumeMasksIt(w: World, actorSub: string, reason: string, at: int, before: seq<Step>, between: seq<Step>, later: seq<Step>, restartAt: int)
    requires w.flag.Some? && RowsUpTo(w.audit, at) && !HaltedOn(ClearHaltForDay(w.risk, UtcDay(at)), UtcDay(restartAt))
    requires LoginsFrom(before, at) && LoginsFrom(between, LastAt(before, at)) && LoginsFrom(later, LastAt(between, LastAt(before, at)))
    ensures var own := |w.pending|;
            var cleared := Apply(Run(Apply(w, BeginResume(actorSub, reason, at)), before), Continue(own, true));
            var completed := Apply(Run(cleared, between), Continue(own, true));
            && completed.flag.None?
            && (Apply(Run(completed, later), Restart(restartAt, false)).flag.None? <==> (before == [] && between == []) || later != [])
  {
    hide RestoredFlag, FindLatest, Run, Apply, RowsUpTo, LoginsFrom, UtcDay, ClearHaltForDay, ResumeRow;
    var own, row := |w.pending|, ResumeRow(actorSub, reason, at);
    var begun := Apply(w, BeginResume(actorSub, reason, at));
    BeginResumeApplied(w, actorSub, reason, at);
    ResumeRowRuns(w.audit, actorSub, reason, at);
    LoginsOnlyWrite(begun, before, at);
    var cleared := Apply(Run(begun, before), Continue(own, true));
    ClearApplied(Run(begun, before), w.pending, UtcDay(at));
    LoginsOnlyWrite(cleared, between, LastAt(before, at));
    var completed := Apply(Run(cleared, between), Continue(own, true));
    ResumeFlipApplied(Run(cleared, between), w.pending);
    LoginsOnlyWrite(completed, later, LastAt(between, LastAt(before, at)));
    var last := Run(completed, later);
    RestoreExact(last.audit, last.risk, None, restartAt);
    RestartApplied(last, restartAt);
  }

  lemma BeginResumeApplied(w: World, actorSub: string, reason: string, at: int)
    ensures Apply(w, BeginResume(actorSub, reason, at))
         == World(w.audit + [ResumeRow(actorSub, reason, at)], w.risk, w.flag, w.pending + [ClearRisk(w.flag.Some?, UtcDay(at))])
  {
  }

  lemma ResumeRowRuns(audit: seq<AuditRow>, actorSub: string, reason: string, at: int)
    requires RowsUpTo(audit, at)
    ensures var grown := audit + [ResumeRow(actorSub, reason, at)];
            RowsUpTo(grown, at) && FindLatest(grown) == Some(ResumeRow(actorSub, reason, at)) && !ResumeRow(actorSub, reason, at).halted
  {
    hide FindLatest;
    FindLatestSnoc(audit, ResumeRow(actorSub, reason, at));
  }

  lemma ClearApplied(w: World, others: seq<Pending>, day: int)
    requires w.pending == others + [ClearRisk(true, day)]
    ensures Apply(w, Continue(|others|, true)) == World(w.audit, ClearHaltForDay(w.risk, day), w.flag, others + [FlipResume(true)])
  {
    assert w.pending[|others|] == ClearRisk(true, day);
    assert w.pending[..|others|] + w.pending[|others| + 1..] == others;
  }

  lemma ResumeFlipApplied(w: World, others: seq<Pending>)
    requires w.pending == others + [FlipResume(true)]
    ensures Apply(w, Continue(|others|, true)) == World(w.audit, w.risk, None, others)
  {
    assert w.pending[|others|] == FlipResume(true);
    assert w.pending[..|others|] + w.pending[|others| + 1..] == others;
  }

  /** Nothing under way can halt, and what a pending row will say is RUNNING. */
  ghost predicate OnlyResumes(pending: seq<Pending>) {
    forall i :: 0 <= i < |pending| ==> !pending[i].FlipHalt? && (pending[i].Append? ==> !pending[i].row.halted)
  }

  /** The newest row says RUNNING and no row of a later day than `day` is halted, with at most resumes under way. */
  ghost predicate Resuming(w: World, day: int) {
    && FindLatest(w.audit).Some? && !FindLatest(w.audit).value.halted && OnlyResumes(w.pending)
    && (forall later :: later in w.risk && later > day ==> !w.risk[later].isHalted)
  }

  /** RUNNING in memory and on disk from `day` on. */
  ghost predicate Resumed(w: World, day: int) {
    Resuming(w, day) && w.flag.None? && !HaltedOn(w.risk, day)
  }

  /** The step engages no halt from `day` on, and no login reads HALTED. */
  predicate Quiet(w: World, step: Step, day: int) {
    && !step.BeginHalt? && !step.ProgrammaticFlag? && !step.RateLimitEngage?
    && (step.PersistHalt? ==> step.day < day)
    && (step.LoginAudit? ==> w.flag.None?)
    && (step.Restart? ==> !step.keyPermissionRow && UtcDay(step.at) >= day)
  }

  lemma ResumeKind(pending: seq<Pending>, i: nat)
    requires OnlyResumes(pending) && i < |pending|
    ensures !pending[i].FlipHalt? && (pending[i].Append? ==> !pending[i].row.halted)
  {
  }

  lemma OnlyResumesStep(w: World, step: Step, day: int)
    requires OnlyResumes(w.pending) && Quiet(w, step, day)
    ensures OnlyResumes(Apply(w, step).pending)
  {
    hide RestoredFlag, OwnedByRateLimit, StressEligible, StressLeg, SourceName;
  }

  lemma ResumingStep(w: World, step: Step, day: int)
    requires Resuming(w, day) && Quiet(w, step, day)
    ensures Resuming(Apply(w, step), day)
    ensures !HaltedOn(w.risk, day) ==> !HaltedOn(Apply(w, step).risk, day)
    ensures w.flag.None? && (step.Restart? ==> !HaltedOn(w.risk, day)) ==> Apply(w, step).flag.None?
  {
    hide RestoredFlag, FindLatest, OwnedByRateLimit, StressEligible, StressLeg, SourceName, OnlyResumes;
    OnlyResumesStep(w, step, day);
    match step
    case BeginResume(actorSub, reason, at) =>
      FindLatestSnoc(w.audit, ResumeRow(actorSub, reason, at));
    case LoginAudit(actorSub, at) =>
      FindLatestSnoc(w.audit, AuditRow(at, actorSub, "login", false));
    case Continue(index, ok) =>
      if index < |w.pending| {
        ResumeKind(w.pending, index);
        if w.pending[index].Append? {
          FindLatestSnoc(w.audit, w.pending[index].row);
        }
      }
    case RateLimitAutoClear(detail, at) =>
      NotOwnedWhenRunning();
    case Restart(at, _) =>
      RestoreExact(w.audit, w.risk, None, at);
    case _ =>
  }

  ghost predicate QuietRun(w: World, steps: seq<Step>, day: int)
    decreases |steps|
  {
    steps != [] ==> Quiet(w, steps[0], day) && QuietRun(Apply(w, steps[0]), steps[1..], day)
  }

  ghost predicate NoRestart(steps: seq<Step>) {
    forall i :: 0 <= i < |steps| ==> !steps[i].Restart?
  }

  lemma {:induction false} ResumingRun(w: World, steps: seq<Step>, day: int)
    requires Resuming(w, day) && QuietRun(w, steps, day)
    ensures Resuming(Run(w, steps), day)
    ensures !HaltedOn(w.risk, day) ==> !HaltedOn(Run(w, steps).risk, day)
    ensures w.flag.None? && (!HaltedOn(w.risk, day) || NoRestart(steps)) ==> Run(w, steps).flag.None?
    decreases |steps|
  {
    hide Resuming, Quiet, Apply;
    if steps != [] {
      ResumingStep(w, steps[0], day);
      ResumingRun(Apply(w, steps[0]), steps[1..], day);
    }
  }

  lemma BeginResumeResuming(w: World, actorSub: string, reason: string, at: int)
    requires OnlyResumes(w.pending) && RowsUpTo(w.audit, at)
    requires forall day :: day in w.risk && day > UtcDay(at) ==> !w.risk[day].isHalted
    ensures Resuming(Apply(w, BeginResume(actorSub, reason, at)), UtcDay(at)) && Apply(w, BeginResume(actorSub, reason, at)).flag == w.flag
  {
    hide FindLatest;
    FindLatestSnoc(w.audit, ResumeRow(actorSub, reason, at));
  }

  lemma ClearIsDone(w: World, j: nat, day: int)
    requires j < |w.pending| && w.pending[j].ClearRisk? && w.pending[j].day == day && Resuming(w, day)
    ensures var cleared := Apply(w, Continue(j, true));
            Resuming(cleared, day) && !HaltedOn(cleared.risk, day) && cleared.flag == w.flag
  {
    hide FindLatest;
  }

  lemma FlipIsDone(w: World, i: nat, day: int)
    requires i < |w.pending| && w.pending[i].FlipResume? && Resuming(w, day) && !HaltedOn(w.risk, day)
    requires w.pending[i].wasHalted || w.flag.None?
    ensures Resumed(Apply(w, Continue(i, true)), day)
  {
    hide FindLatest;
  }

  /**
   * A completed resume, interleaved with steps that engage no halt and with logins that read RUNNING only, is RUNNING in
   * memory and on disk, and stays so through every further run of such steps, restarts included.
   */
  lemma CompletedResumeSurvives(w: World, actorSub: string, reason: string, at: int,
                                before: seq<Step>, j: nat, between: seq<Step>, i: nat, after: seq<Step>)
    requires OnlyResumes(w.pending) && RowsUpTo(w.audit, at) && NoRestart(before) && NoRestart(between)
    requires forall day :: day in w.risk && day > UtcDay(at) ==> !w.risk[day].isHalted
    requires QuietRun(Apply(w, BeginResume(actorSub, reason, at)), before, UtcDay(at))
    requires var mid := Run(Apply(w, BeginResume(actorSub, reason, at)), before);
             && j < |mid.pending| && mid.pending[j] == ClearRisk(w.flag.Some?, UtcDay(at))
             && QuietRun(Apply(mid, Continue(j, true)), between, UtcDay(at))
             && var last := Run(Apply(mid, Continue(j, true)), between);
                && i < |last.pending| && last.pending[i] == FlipResume(w.flag.Some?)
                && QuietRun(Apply(last, Continue(i, true)), after, UtcDay(at))
    ensures var mid := Run(Apply(w, BeginResume(actorSub, reason, at)), before);
            var last := Run(Apply(mid, Continue(j, true)), between);
            Resumed(Run(Apply(last, Continue(i, true)), after), UtcDay(at))
  {
    hide Apply, QuietRun, OnlyResumes, RowsUpTo, HaltedOn, NoRestart;
    var day := UtcDay(at);
    var begun := Apply(w, BeginResume(actorSub, reason, at));
    BeginResumeResuming(w, actorSub, reason, at);
    hide Resuming;
    ResumingRun(begun, before, day);
    var mid := Run(begun, before);
    ClearIsDone(mid, j, day);
    var cleared := Apply(mid, Continue(j, true));
    ResumingRun(cleared, between, day);
    var last := Run(cleared, between);
    FlipIsDone(last, i, day);
    ResumingRun(Apply(last, Continue(i, true)), after, day);
  }
}
