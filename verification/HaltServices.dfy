/**
 * The services that move the halt protocol: each method, run without interruption, performs exactly a sequence of
 * protocol steps. Whether a durable write succeeds is an input (`up`), so every failure path is covered.
 */
module HaltServices {
  import opened Wrappers
  import opened HaltProtocol

  const MARKET_STRESS_PREFIX := "market_stress:"

  /** The bare leg of a `market_stress:<leg>` reason; none for any other reason or an empty leg. */
  function ParseMarketStressLeg(reason: string): Option<string> {
    if MARKET_STRESS_PREFIX < reason then Some(reason[|MARKET_STRESS_PREFIX|..]) else None
  }

  /** A flag reason gives a leg exactly when it is the market-stress source, a colon, and a text. */
  lemma LegExact(reason: string, leg: string)
    ensures ParseMarketStressLeg(reason) == Some(leg) <==> leg != "" && reason == "market_stress:" + leg
  {
    if MARKET_STRESS_PREFIX < reason {
      assert reason == "market_stress:" + reason[14..];
    }
    if reason == "market_stress:" + leg {
      assert reason[14..] == leg;
    }
  }

  class HaltFlagService {
    var halted: bool
    var reason: Option<string>
    var marketStressLeg: Option<string>

    predicate Valid()
      reads this
    {
      && (halted <==> reason.Some?)
      && marketStressLeg == if reason.Some? then ParseMarketStressLeg(reason.value) else None
    }

    constructor ()
      ensures Valid() && reason == None
    {
      halted, reason, marketStressLeg := false, None, None;
    }

    method Halt(why: string)
      modifies this
      ensures Valid() && reason == Some(why)
    {
      halted, reason, marketStressLeg := true, Some(why), ParseMarketStressLeg(why);
    }

    method Resume()
      modifies this
      ensures Valid() && reason == None
    {
      halted, reason, marketStressLeg := false, None, None;
    }
  }

  class ControlAuditRepository {
    var rows: seq<AuditRow>

    constructor ()
      ensures rows == []
    {
      rows := [];
    }

    method Append(row: AuditRow, up: bool) returns (ok: bool)
      modifies this
      ensures ok == up && rows == if up then old(rows) + [row] else old(rows)
    {
      if up {
        rows := rows + [row];
      }
      return up;
    }
  }

  class RiskStateRepository {
    var rows: map<int, RiskRow>

    constructor ()
      ensures rows == map[]
    {
      rows := map[];
    }

    method ClearHaltForDate(day: int, up: bool) returns (ok: bool)
      modifies this
      ensures ok == up && rows == if up then ClearHaltForDay(old(rows), day) else old(rows)
    {
      if up && day in rows {
        rows := rows[day := RiskRow(false, None)];
      }
      return up;
    }
  }

  datatype HaltError = NotOperator | MissingActor | AuditWriteFailed | RiskClearFailed

  datatype HaltTransition = HaltTransition(audit: AuditRow, flattenDispatched: bool)

  class HaltService {
    const auditRepo: ControlAuditRepository
    const haltFlag: HaltFlagService
    const riskHaltState: RiskStateRepository
    var lastTransition: Option<AuditRow>
    var lastSource: HaltSource
    var flattenInProgress: bool

    /** The protocol state these services share, with nothing in flight. */
    function View(): World
      reads this, auditRepo, haltFlag, riskHaltState
    {
      World(auditRepo.rows, riskHaltState.rows, haltFlag.reason, [])
    }

    constructor (auditRepo: ControlAuditRepository, haltFlag: HaltFlagService, riskHaltState: RiskStateRepository)
      ensures this.auditRepo == auditRepo && this.haltFlag == haltFlag && this.riskHaltState == riskHaltState
      ensures lastTransition == None && lastSource == OPERATOR && !flattenInProgress
    {
      this.auditRepo, this.haltFlag, this.riskHaltState := auditRepo, haltFlag, riskHaltState;
      lastTransition, lastSource, flattenInProgress := None, OPERATOR, false;
    }

    /** Audit row first, then the flag: a rejected or failed audit write changes nothing, and only the first transition flattens. */
    method EngageHalt(source: HaltSource, actorSub: Option<string>, actorJti: Option<string>, reason: string, flatten: bool, now: int, auditUp: bool)
      returns (result: Result<HaltTransition, HaltError>)
      requires haltFlag.Valid()
      modifies this, auditRepo, haltFlag
      ensures haltFlag.Valid()
      ensures result.Ok? <==> source == OPERATOR && actorSub.Some? && actorJti.Some? && auditUp
      ensures result.Err? ==> View() == old(View()) && lastTransition == old(lastTransition) && lastSource == old(lastSource)
      ensures result.Ok? ==> && View() == Run(old(View()), [BeginHalt(actorSub.value, reason, now), Continue(0, true)])
                             && result.value == HaltTransition(HaltRow(actorSub.value, reason, now), flatten && old(haltFlag.reason).None?)
                             && lastTransition == Some(result.value.audit) && lastSource == source
      ensures flattenInProgress == (old(flattenInProgress) && !(result.Ok? && result.value.flattenDispatched))
    {
      var wasAlreadyHalted := haltFlag.halted;
      var check := CheckOperator(source, actorSub, actorJti);
      if check.Err? {
        return Err(check.error);
      }
      var audit := HaltRow(actorSub.value, reason, now);
      var written := auditRepo.Append(audit, auditUp);
      if !written {
        return Err(AuditWriteFailed);
      }
      RunTwo(old(View()), BeginHalt(actorSub.value, reason, now), Continue(0, true));
      if !wasAlreadyHalted {
        haltFlag.Halt(SourceName(source) + ":" + reason);
      }
      lastTransition, lastSource := Some(audit), source;
      var shouldFlatten := flatten && !wasAlreadyHalted;
      if shouldFlatten {
        flattenInProgress := true;
        flattenInProgress := false;
      }
      return Ok(HaltTransition(audit, shouldFlatten));
    }

    /** Audit row, then today's risk row, then the flag: a failed clear leaves the flag as it was, with the RESUME row on record. */
    method Resume(source: HaltSource, actorSub: Option<string>, actorJti: Option<string>, reason: string, now: int, auditUp: bool, clearUp: bool)
      returns (result: Result<HaltTransition, HaltError>)
      requires haltFlag.Valid()
      modifies this, auditRepo, haltFlag, riskHaltState
      ensures haltFlag.Valid() && flattenInProgress == old(flattenInProgress)
      ensures result.Ok? <==> source == OPERATOR && actorSub.Some? && actorJti.Some? && auditUp && clearUp
      ensures result.Err? ==> lastTransition == old(lastTransition) && lastSource == old(lastSource)
      ensures result.Err? && result.error != RiskClearFailed ==> View() == old(View())
      ensures result.Err? && result.error == RiskClearFailed ==>
                actorSub.Some? && View() == Run(old(View()), [BeginResume(actorSub.value, reason, now), Continue(0, false)])
      ensures result.Ok? ==> && View() == Run(Apply(old(View()), BeginResume(actorSub.value, reason, now)), [Continue(0, true), Continue(0, true)])
                             && View().flag == None
                             && result.value == HaltTransition(ResumeRow(actorSub.value, reason, now), false)
                             && lastTransition == Some(result.value.audit) && lastSource == source
    {
      var previouslyHalted := haltFlag.halted;
      var check := CheckOperator(source, actorSub, actorJti);
      if check.Err? {
        return Err(check.error);
      }
      var audit := ResumeRow(actorSub.value, reason, now);
      var written := auditRepo.Append(audit, auditUp);
      if !written {
        return Err(AuditWriteFailed);
      }
      RunTwo(old(View()), BeginResume(actorSub.value, reason, now), Continue(0, false));
      RunTwo(Apply(old(View()), BeginResume(actorSub.value, reason, now)), Continue(0, true), Continue(0, true));
      var cleared := riskHaltState.ClearHaltForDate(UtcDay(now), clearUp);
      if !cleared {
        return Err(RiskClearFailed);
      }
      if previouslyHalted {
        haltFlag.Resume();
      }
      lastTransition, lastSource := Some(audit), source;
      return Ok(HaltTransition(audit, false));
    }

    method CheckOperator(source: HaltSource, actorSub: Option<string>, actorJti: Option<string>) returns (check: Result<bool, HaltError>)
      ensures check.Ok? <==> source == OPERATOR && actorSub.Some? && actorJti.Some?
      ensures check.Err? ==> check.error == if source != OPERATOR then NotOperator else MissingActor
    {
      if source != OPERATOR {
        return Err(NotOperator);
      }
      if actorSub.None? || actorJti.None? {
        return Err(MissingActor);
      }
      return Ok(true);
    }

    /** In-memory notation of a programmatic transition, HALTED or RUNNING; no durable row and no flag change. */
    method NoteProgrammatic(source: HaltSource, reason: string, at: int, halted: bool)
      modifies this
      ensures View() == old(View())
      ensures lastTransition == Some(AuditRow(at, PROGRAMMATIC_ACTOR_PREFIX + SourceName(source), reason, halted))
      ensures lastSource == source && flattenInProgress == old(flattenInProgress)
    {
      lastTransition := Some(AuditRow(at, PROGRAMMATIC_ACTOR_PREFIX + SourceName(source), reason, halted));
      lastSource := source;
    }

    method RestoreFromAuditRow(latest: Option<AuditRow>, source: HaltSource)
      requires haltFlag.Valid()
      modifies this, haltFlag
      ensures haltFlag.Valid() && haltFlag.reason == RestoreFromAudit(old(haltFlag.reason), latest, source)
      ensures lastTransition == latest && lastSource == source && flattenInProgress == old(flattenInProgress)
    {
      lastTransition, lastSource := latest, source;
      if latest.Some? && latest.value.halted && !haltFlag.halted {
        haltFlag.Halt(SourceName(source) + ":" + latest.value.reason);
      }
    }
  }

  /** Halts and auto-clears on behalf of the exchange rate limiter; neither method reports a failed audit write. */
  class RateLimitHaltAdapter {
    const service: HaltService

    constructor (service: HaltService)
      ensures this.service == service
    {
      this.service := service;
    }

    method Engage(detail: string, at: int, auditUp: bool)
      requires service.haltFlag.Valid()
      modifies service, service.haltFlag, service.auditRepo
      ensures service.haltFlag.Valid()
      ensures service.View() == Run(old(service.View()), [RateLimitEngage(detail, at), Continue(0, auditUp)])
      ensures service.lastSource == RATE_LIMIT
    {
      RunTwo(service.View(), RateLimitEngage(detail, at), Continue(0, auditUp));
      if !service.haltFlag.halted {
        service.haltFlag.Halt(SourceName(RATE_LIMIT) + ":" + detail);
      }
      service.NoteProgrammatic(RATE_LIMIT, detail, at, true);
      var _ := service.auditRepo.Append(RateLimitRow("RATE_LIMIT_BAN:" + detail, at, true), auditUp);
    }

    /** Lifts the halt only when its reason is the rate limiter's own; the flag goes first, so a failed audit write leaves it lifted. */
    method AutoClear(detail: string, at: int, auditUp: bool)
      requires service.haltFlag.Valid()
      modifies service, service.haltFlag, service.auditRepo
      ensures service.haltFlag.Valid()
      ensures service.View() == Run(old(service.View()), [RateLimitAutoClear(detail, at), Continue(0, auditUp)])
      ensures !OwnedByRateLimit(old(service.View()).flag) ==> service.View() == old(service.View()) && service.lastSource == old(service.lastSource)
    {
      RunTwo(service.View(), RateLimitAutoClear(detail, at), Continue(0, auditUp));
      if !OwnedByRateLimit(service.haltFlag.reason) {
        return;
      }
      service.haltFlag.Resume();
      service.NoteProgrammatic(RATE_LIMIT, detail, at, false);
      var _ := service.auditRepo.Append(RateLimitRow(detail, at, false), auditUp);
    }
  }

  /** The boot step that restores the flag from the two durable sources, once per process. */
  class HaltStateRestoreService {
    const service: HaltService
    var restored: bool

    constructor (service: HaltService)
      ensures this.service == service && !restored
    {
      this.service, restored := service, false;
    }

    method Restore(now: int)
      requires service.haltFlag.Valid()
      modifies this, service, service.haltFlag
      ensures service.haltFlag.Valid() && restored
      ensures service.View() == if old(restored) then old(service.View())
                                else old(service.View()).(flag := RestoredFlag(service.auditRepo.rows, service.riskHaltState.rows, old(service.haltFlag.reason), now))
      ensures !old(restored) ==> service.lastTransition == FindLatest(service.auditRepo.rows)
                                 && service.lastSource == ResolutionAt(service.auditRepo.rows, service.riskHaltState.rows, now).source
    {
      if restored {
        return;
      }
      var latest := FindLatest(service.auditRepo.rows);
      var resolution := ResolutionAt(service.auditRepo.rows, service.riskHaltState.rows, now);
      restored := true;
      service.RestoreFromAuditRow(latest, resolution.source);
      if resolution.desiredHalted && !service.haltFlag.halted {
        service.haltFlag.Halt(BuildFlagReason(resolution));
      } else if !resolution.desiredHalted && service.haltFlag.halted {
        service.haltFlag.Resume();
      }
    }
  }
}
