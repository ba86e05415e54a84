/**
  The tagging cooldown tracker (utils.py): a map from Slack user id to the
  time that user was last tagged in a suggestion. A user tagged less than
  `UserTagCooldown` seconds ago is not suggested again. The wall clock is an
  explicit `now` parameter, in whole seconds.
 */
module Cooldown {

  /** One hour per user. */
  const UserTagCooldown: int := 3600

  /** Declared next to the user window (5 minutes between tags in a channel)
      but never consulted by any operation. */
  const ChannelTagCooldown: int := 300

  type UserId = string

  /** user id -> time of the last tag */
  type CooldownMap = map<UserId, int>

  /** `user_tag_cooldowns.get(user_id, 0)`: an untracked user reads as
      tagged at time 0. */
  function LastTagged(m: CooldownMap, u: UserId): int {
    if u in m then m[u] else 0
  }

  /** `is_user_in_cooldown`: tagged less than one window ago. */
  predicate InCooldown(m: CooldownMap, u: UserId, now: int) {
    now - LastTagged(m, u) < UserTagCooldown
  }

  /** An entry `clear_expired_cooldowns` deletes: strictly more than one
      window old. An entry exactly one window old is neither in cooldown
      nor expired. */
  predicate Expired(last: int, now: int) {
    now - last > UserTagCooldown
  }

  function Max(a: int, b: int): int {
    if a >= b then a else b
  }

  /** `get_cooldown_remaining`: `max(0, int(UserTagCooldown - elapsed))`. */
  function Remaining(m: CooldownMap, u: UserId, now: int): (r: int)
    ensures 0 <= r
    ensures r > 0 <==> InCooldown(m, u, now)
    ensures LastTagged(m, u) <= now ==> r <= UserTagCooldown
    ensures r > 0 ==> LastTagged(m, u) + UserTagCooldown == now + r
  {
    var elapsed := now - LastTagged(m, u);
    Max(0, UserTagCooldown - elapsed)
  }

  /** `update_user_cooldown`: stamps the user with the current time. */
  function Mark(m: CooldownMap, u: UserId, now: int): (r: CooldownMap)
    ensures InCooldown(r, u, now)
    ensures Remaining(r, u, now) == UserTagCooldown
    ensures r.Keys == m.Keys + {u}
    ensures forall v :: v in m && v != u ==> r[v] == m[v]
  {
    m[u := now]
  }

  /** Marking twice at the same instant is the same as marking once. */
  lemma MarkIdempotent(m: CooldownMap, u: UserId, now: int)
    ensures Mark(Mark(m, u, now), u, now) == Mark(m, u, now)
    ensures Remaining(Mark(Mark(m, u, now), u, now), u, now) == UserTagCooldown
  {
  }

  /** A mark keeps the user suppressed for exactly one window: in cooldown
      at every instant of `[t, t + UserTagCooldown)`, and free afterwards. */
  lemma MarkWindow(m: CooldownMap, u: UserId, t: int, now: int)
    requires t <= now
    ensures InCooldown(Mark(m, u, t), u, now) <==> now < t + UserTagCooldown
    ensures Remaining(Mark(m, u, t), u, now) == Max(0, t + UserTagCooldown - now)
  {
  }

  /** The map `clear_expired_cooldowns` leaves behind. */
  function Swept(m: CooldownMap, now: int): (r: CooldownMap)
    ensures forall u :: u in r <==> u in m && !Expired(m[u], now)
    ensures forall u :: u in r ==> r[u] == m[u]
  {
    map u | u in m && !Expired(m[u], now) :: m[u]
  }

  /** The users a sweep at `now` deletes. */
  function ExpiredUsers(m: CooldownMap, now: int): set<UserId> {
    set u | u in m && Expired(m[u], now)
  }

  /** `clear_expired_cooldowns`: collects the expired users in one pass,
      deletes them, and returns how many it deleted. */
  method ClearExpired(m: CooldownMap, now: int) returns (m': CooldownMap, removed: nat)
    ensures m' == Swept(m, now)
    ensures removed == |ExpiredUsers(m, now)|
    ensures removed == |m| - |m'|
  {
    var pending := m.Keys;
    var expired: set<UserId> := {};
    while pending != {}
      invariant pending <= m.Keys
      invariant expired <= m.Keys - pending
      invariant forall u :: u in m.Keys - pending ==> (u in expired <==> Expired(m[u], now))
      decreases pending
    {
      var u :| u in pending;
      if Expired(m[u], now) {
        expired := expired + {u};
      }
      pending := pending - {u};
    }
    assert expired == ExpiredUsers(m, now);
    m' := m - expired;
    assert m'.Keys == m.Keys - expired;
    assert m' == Swept(m, now);
    SubsetCard(expired, m.Keys);
    removed := |expired|;
  }

  lemma SubsetCard<T>(a: set<T>, b: set<T>)
    requires a <= b
    ensures |b - a| == |b| - |a|
  {
    assert b == (b - a) + a;
  }

  /** A sweep never deletes a user who is still in cooldown, and deletes
      every user whose window has run out by more than zero seconds. */
  lemma SweepRespectsCooldown(m: CooldownMap, u: UserId, now: int)
    requires u in m
    ensures InCooldown(m, u, now) ==> u in Swept(m, now)
    ensures now - m[u] > UserTagCooldown <==> u !in Swept(m, now)
  {
  }

  /** Once the window has elapsed the user is free again, and a later sweep
      deletes the entry. */
  lemma MarkThenExpire(m: CooldownMap, u: UserId, t: int, now: int)
    requires now > t + UserTagCooldown
    ensures !InCooldown(Mark(m, u, t), u, now)
    ensures u !in Swept(Mark(m, u, t), now)
    ensures forall v :: v in m && v != u ==> (v in Swept(Mark(m, u, t), now) <==> v in Swept(m, now))
  {
  }
}
