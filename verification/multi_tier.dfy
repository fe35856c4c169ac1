/**
  The tier combinator: a per-(user, model) limiter, a global per-model limiter
  and optional per-model-tier limiters, consulted in that order. The first
  denial ends the call; tiers already consulted keep what they recorded.
 */
module MultiTier {
  import opened Wrappers
  import LocalLimiter

  datatype RateLimitConfig = RateLimitConfig(maxRequests: int, windowSeconds: int)

  /** The defaults used when a limit is not given. */
  const DefaultPerUserModel := RateLimitConfig(100, 3600)
  const DefaultPerModel := RateLimitConfig(10000, 3600)

  /** The user name under which the global and tier limiters record every request. */
  const GlobalUser := "__global__"

  /** The fixed model-to-tier table; every other model is "standard". */
  const TierTable: map<string, string> := map[
    "gpt-4" := "high",
    "gpt-4-32k" := "high",
    "claude-2" := "high",
    "llama-70b" := "medium",
    "gpt-3.5-turbo" := "medium",
    "llama-7b" := "low"]

  datatype MultiTierLimiter = MultiTierLimiter(
    perUserModel: RateLimitConfig,
    perModel: RateLimitConfig,
    perTier: map<string, RateLimitConfig>,
    userModelLimiter: LocalLimiter.Limiter,
    modelLimiter: LocalLimiter.Limiter,
    tierLimiters: map<string, LocalLimiter.Limiter>)

  function Fresh(c: RateLimitConfig): LocalLimiter.Limiter {
    LocalLimiter.NewLimiter(c.maxRequests, c.windowSeconds)
  }

  /** A limiter whose windows are empty and counters zero, configured by `c`. */
  predicate IsFresh(l: LocalLimiter.Limiter, c: RateLimitConfig) {
    l.maxRequests == c.maxRequests && l.windowSeconds == c.windowSeconds
    && l.windows == map[] && l.allowedCount == 0 && l.deniedCount == 0
  }

  /** Construction: absent limits take the defaults, and one fresh limiter is built per configured tier. */
  function NewMultiTier(perUserModel: Option<RateLimitConfig>, perModel: Option<RateLimitConfig>,
                        perTier: Option<map<string, RateLimitConfig>>): (t: MultiTierLimiter)
    ensures IsFresh(t.userModelLimiter, perUserModel.GetOr(RateLimitConfig(100, 3600)))
    ensures IsFresh(t.modelLimiter, perModel.GetOr(RateLimitConfig(10000, 3600)))
    ensures t.perUserModel == perUserModel.GetOr(RateLimitConfig(100, 3600))
    ensures t.perModel == perModel.GetOr(RateLimitConfig(10000, 3600))
    ensures t.perTier == perTier.GetOr(map[])
    ensures perTier.None? ==> t.tierLimiters == map[]
    ensures perTier.Some? ==> t.tierLimiters.Keys == perTier.value.Keys
    ensures t.tierLimiters.Keys == t.perTier.Keys
    ensures forall tier :: tier in t.tierLimiters ==> IsFresh(t.tierLimiters[tier], t.perTier[tier])
  {
    var u := perUserModel.GetOr(DefaultPerUserModel);
    var m := perModel.GetOr(DefaultPerModel);
    var p := perTier.GetOr(map[]);
    MultiTierLimiter(u, m, p, Fresh(u), Fresh(m), map tier | tier in p :: Fresh(p[tier]))
  }

  /** `get_model_tier`: a total lookup with "standard" as the default. */
  function ModelTier(model: string): (tier: string)
    ensures tier in {"high", "medium", "low", "standard"}
    ensures model in TierTable ==> tier == TierTable[model]
    ensures model in TierTable <==> tier != "standard"
  {
    if model in TierTable then TierTable[model] else "standard"
  }

  /** The four lookups the tests make: listed models get their tier, an unknown one is "standard". */
  lemma ModelTierExamples()
    ensures ModelTier("gpt-4") == "high"
    ensures ModelTier("gpt-3.5-turbo") == "medium"
    ensures ModelTier("llama-7b") == "low"
    ensures ModelTier("unknown-model") == "standard"
  {
  }

  /** The model name under which a tier's limiter records: the tier behind "tier-". */
  function TierModel(tier: string): (m: string)
    ensures LocalLimiter.HasPrefix(m, "tier-") && m[5..] == tier
  {
    "tier-" + tier
  }

  predicate Contains(s: string, part: string) {
    exists i :: 0 <= i <= |s| && LocalLimiter.HasPrefix(s[i..], part)
  }

  /** The state of every limiter but the per-(user, model) one is unchanged. */
  predicate OnlyUserTierTouched(a: MultiTierLimiter, b: MultiTierLimiter) {
    a.modelLimiter == b.modelLimiter && a.tierLimiters == b.tierLimiters
    && a.perUserModel == b.perUserModel && a.perModel == b.perModel && a.perTier == b.perTier
  }

  /**
    `allow(user, model)`: returns the decision, its reason and the new state.
    The tier limiter is consulted only when the model's tier is configured.
   */
  function Allow(t: MultiTierLimiter, user: string, model: string, now: int): (r: (bool, string, MultiTierLimiter))
    ensures r.0 <==> && UserModelAdmits(t, user, model, now)
                     && GlobalAdmits(t, model, now)
                     && (ModelTier(model) in t.tierLimiters ==> TierAdmits(t, model, now))
    ensures r.0 ==> r.1 == "Allowed"
    ensures r.2.tierLimiters.Keys == t.tierLimiters.Keys
    ensures r.2.perUserModel == t.perUserModel && r.2.perModel == t.perModel && r.2.perTier == t.perTier
  {
    var u := LocalLimiter.Allow(t.userModelLimiter, user, model, now);
    if !u.0 then
      var reason := "User " + user + " exceeded limit for model " + model;
      (false, reason, t.(userModelLimiter := u.1))
    else
      var g := LocalLimiter.Allow(t.modelLimiter, GlobalUser, model, now);
      var t2 := t.(userModelLimiter := u.1, modelLimiter := g.1);
      if !g.0 then
        var reason := "Global limit exceeded for model " + model;
        (false, reason, t2)
      else
        var tier := ModelTier(model);
        if tier !in t.tierLimiters then (true, "Allowed", t2)
        else
          var a := LocalLimiter.Allow(t.tierLimiters[tier], GlobalUser, TierModel(tier), now);
          var t3 := t2.(tierLimiters := t.tierLimiters[tier := a.1]);
          if !a.0 then (false, "Tier " + tier + " global limit exceeded", t3)
          else (true, "Allowed", t3)
  }

  /** What each tier would decide on its own, from the state before the call. */
  predicate UserModelAdmits(t: MultiTierLimiter, user: string, model: string, now: int) {
    LocalLimiter.Allow(t.userModelLimiter, user, model, now).0
  }

  predicate GlobalAdmits(t: MultiTierLimiter, model: string, now: int) {
    LocalLimiter.Allow(t.modelLimiter, GlobalUser, model, now).0
  }

  predicate TierAdmits(t: MultiTierLimiter, model: string, now: int)
    requires ModelTier(model) in t.tierLimiters
  {
    LocalLimiter.Allow(t.tierLimiters[ModelTier(model)], GlobalUser, TierModel(ModelTier(model)), now).0
  }

  /** A per-(user, model) denial returns before the global and tier limiters are touched, naming the user. */
  lemma UserDenialShortCircuits(t: MultiTierLimiter, user: string, model: string, now: int)
    requires !UserModelAdmits(t, user, model, now)
    ensures var r := Allow(t, user, model, now);
            && r.2.userModelLimiter == LocalLimiter.Allow(t.userModelLimiter, user, model, now).1
            && OnlyUserTierTouched(t, r.2)
            && Contains(r.1, user)
  {
    var r := Allow(t, user, model, now);
    assert LocalLimiter.HasPrefix(r.1[5..], user);
  }

  /** A global denial keeps the per-(user, model) record already made: there is no rollback. */
  lemma GlobalDenialKeepsUserRecord(t: MultiTierLimiter, user: string, model: string, now: int)
    requires UserModelAdmits(t, user, model, now)
    requires !GlobalAdmits(t, model, now)
    ensures var r := Allow(t, user, model, now);
            var w := LocalLimiter.Window(r.2.userModelLimiter, LocalLimiter.Key(user, model));
            && r.2.userModelLimiter == LocalLimiter.Allow(t.userModelLimiter, user, model, now).1
            && |w| > 0 && w[|w| - 1] == now
            && r.2.userModelLimiter.allowedCount == t.userModelLimiter.allowedCount + 1
            && r.2.modelLimiter == LocalLimiter.Allow(t.modelLimiter, GlobalUser, model, now).1
            && r.2.tierLimiters == t.tierLimiters
            && HasGlobalPrefix(r.1)
  {
  }

  /** A tier denial keeps the records of both earlier limiters and names the tier. */
  lemma TierDenialKeepsEarlierRecords(t: MultiTierLimiter, user: string, model: string, now: int)
    requires UserModelAdmits(t, user, model, now) && GlobalAdmits(t, model, now)
    requires ModelTier(model) in t.tierLimiters && !TierAdmits(t, model, now)
    ensures var r := Allow(t, user, model, now);
            var tier := ModelTier(model);
            && !r.0
            && r.2.userModelLimiter == LocalLimiter.Allow(t.userModelLimiter, user, model, now).1
            && r.2.modelLimiter == LocalLimiter.Allow(t.modelLimiter, GlobalUser, model, now).1
            && r.2.tierLimiters
               == t.tierLimiters[tier := LocalLimiter.Allow(t.tierLimiters[tier], GlobalUser, TierModel(tier), now).1]
            && r.1 == "Tier " + tier + " global limit exceeded"
  {
  }

  /** The tier limiter is consulted only when the model's tier is configured. */
  lemma UnconfiguredTierUntouched(t: MultiTierLimiter, user: string, model: string, now: int)
    requires ModelTier(model) !in t.tierLimiters
    ensures Allow(t, user, model, now).2.tierLimiters == t.tierLimiters
  {
  }

  predicate HasGlobalPrefix(s: string) {
    |s| >= 6 && s[..6] == "Global"
  }

  /** Every limiter of the combinator satisfies the window invariant at `clock`. */
  predicate Valid(t: MultiTierLimiter, clock: int) {
    && LocalLimiter.Valid(t.userModelLimiter, clock)
    && LocalLimiter.Valid(t.modelLimiter, clock)
    && forall tier :: tier in t.tierLimiters ==> LocalLimiter.Valid(t.tierLimiters[tier], clock)
  }

  /** A freshly built combinator is valid at any clock. */
  lemma NewMultiTierValid(perUserModel: Option<RateLimitConfig>, perModel: Option<RateLimitConfig>,
                          perTier: Option<map<string, RateLimitConfig>>, clock: int)
    ensures Valid(NewMultiTier(perUserModel, perModel, perTier), clock)
  {
  }

  /** With non-decreasing clocks every tier's windows stay sorted and within that tier's cap. */
  lemma AllowKeepsValid(t: MultiTierLimiter, clock: int, user: string, model: string, now: int)
    requires Valid(t, clock) && clock <= now
    ensures Valid(Allow(t, user, model, now).2, now)
  {
    var r := Allow(t, user, model, now);
    LocalLimiter.AllowKeepsValid(t.userModelLimiter, clock, user, model, now);
    LocalLimiter.AllowKeepsValid(t.modelLimiter, clock, GlobalUser, model, now);
    LocalLimiter.NowValid(t.modelLimiter, clock, now);
    var tier := ModelTier(model);
    forall tr | tr in r.2.tierLimiters
      ensures LocalLimiter.Valid(r.2.tierLimiters[tr], now)
    {
      LocalLimiter.NowValid(t.tierLimiters[tr], clock, now);
      if tr == tier {
        LocalLimiter.AllowKeepsValid(t.tierLimiters[tr], clock, GlobalUser, TierModel(tier), now);
      }
    }
  }

  /**
    An admitted request has been recorded by every limiter consulted: the
    user-model and global limiters, and the tier limiter when the tier is
    configured, each hold `now` at the end of the request's window; no other
    tier limiter changes.
   */
  lemma AdmittedIsRecordedEverywhere(t: MultiTierLimiter, user: string, model: string, now: int)
    requires Allow(t, user, model, now).0
    ensures var s := Allow(t, user, model, now).2;
            var tier := ModelTier(model);
            && s.userModelLimiter == LocalLimiter.Allow(t.userModelLimiter, user, model, now).1
            && s.modelLimiter == LocalLimiter.Allow(t.modelLimiter, GlobalUser, model, now).1
            && (tier in t.tierLimiters ==>
                  s.tierLimiters
                  == t.tierLimiters[tier := LocalLimiter.Allow(t.tierLimiters[tier], GlobalUser, TierModel(tier), now).1])
            && (tier !in t.tierLimiters ==> s.tierLimiters == t.tierLimiters)
    ensures var s := Allow(t, user, model, now).2;
            var tier := ModelTier(model);
            var ku := LocalLimiter.Window(s.userModelLimiter, LocalLimiter.Key(user, model));
            var kg := LocalLimiter.Window(s.modelLimiter, LocalLimiter.Key(GlobalUser, model));
            && |ku| > 0 && ku[|ku| - 1] == now
            && |kg| > 0 && kg[|kg| - 1] == now
            && (tier in t.tierLimiters ==>
                  var kt := LocalLimiter.Window(s.tierLimiters[tier], LocalLimiter.Key(GlobalUser, TierModel(tier)));
                  |kt| > 0 && kt[|kt| - 1] == now)
  {
  }
}
