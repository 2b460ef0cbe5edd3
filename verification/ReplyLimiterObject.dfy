/** The limiter's objects, whose dictionaries and times are updated in place, proved against
    `ReplyLimiter`. */
module ReplyLimiterObject {
  import opened Wrappers
  import opened ReplyLimiter

  class LoadedBot {
    var lastRun: real
    var queued: set<User>
    var cooldowns: seq<Entry>

    ghost function State(): Bot
      reads this
    {
      Bot(lastRun, queued, cooldowns)
    }

    constructor ()
      ensures State() == Bot(0.0, {}, [])
    {
      lastRun, queued, cooldowns := 0.0, {}, [];
    }

    /** A delayed run begins. */
    method Start(user: User)
      modifies this
      ensures State() == old(State()).(queued := old(queued) - {user})
    {
      queued := queued - {user};
    }
  }

  /** Store, move to the newest end, then pop from the oldest end while over the limit. */
  method Touch(table: seq<Entry>, user: User, time: real) returns (r: seq<Entry>)
    ensures r == Stamp(table, user, time)
  {
    r := Forget(table, user) + [Entry(user, time)];
    while |r| > MAX_TRACKED_USERS
      invariant Evict(r) == Stamp(table, user, time)
    {
      r := r[1..];
    }
  }

  class BotEngine {
    const settings: Settings
    var lastGlobalAccept: real
    var perUserAccepts: seq<Entry>

    ghost function State(): Engine
      reads this
    {
      Engine(lastGlobalAccept, perUserAccepts)
    }

    constructor (settings: Settings)
      ensures this.settings == settings && State() == FRESH.engine
    {
      this.settings, lastGlobalAccept, perUserAccepts := settings, 0.0, [];
    }

    method AdmitRun(loaded: LoadedBot, cfg: BotConfig, user: User, now: real, later: real) returns (delay: Option<real>)
      modifies this, loaded
      ensures (delay, State(), loaded.State()) == Admit(settings, cfg, old(State()), old(loaded.State()), user, now, later)
    {
      hide Stamp, TimeOf;
      if settings.globalSeconds > 0.0 && now - lastGlobalAccept < settings.globalSeconds && lastGlobalAccept > 0.0 {
        return None;
      }
      var lastUser := TimeOf(perUserAccepts, user);
      if settings.perUserSeconds > 0.0 && lastUser > 0.0 && now - lastUser < settings.perUserSeconds {
        return None;
      }
      var wait := 0.0;
      if cfg.cooldown > 0.0 && loaded.lastRun > 0.0 {
        var remaining := cfg.cooldown - (now - loaded.lastRun);
        if remaining > 0.0 {
          if remaining <= cfg.queueThreshold && user !in loaded.queued {
            wait := remaining;
            loaded.queued := loaded.queued + {user};
          } else {
            return None;
          }
        }
      }
      if cfg.perUserCooldown > 0.0 {
        var lastBotUser := TimeOf(loaded.cooldowns, user);
        if lastBotUser > 0.0 && now - lastBotUser < cfg.perUserCooldown {
          return None;
        }
        loaded.cooldowns := Touch(loaded.cooldowns, user, now);
      }
      lastGlobalAccept := now;
      perUserAccepts := Touch(perUserAccepts, user, later);
      loaded.lastRun := now;
      delay := Some(wait);
    }
  }
}
