/** The per-key cooldowns of src/security/core_governor.rs. */
module Cooldown {
  datatype CooldownState = CooldownState(ttl: nat, nextAllowed: map<nat, nat>)

  predicate IsCooling(c: CooldownState, key: nat, now: nat) {
    key in c.nextAllowed && now < c.nextAllowed[key]
  }

  function Marked(c: CooldownState, key: nat, now: nat): CooldownState {
    c.(nextAllowed := c.nextAllowed[key := now + c.ttl])
  }

  class CooldownMap {
    const ttl: nat
    var nextAllowed: map<nat, nat>

    ghost function State(): CooldownState
      reads this
    {
      CooldownState(ttl, nextAllowed)
    }

    constructor (ttl: nat)
      ensures State() == CooldownState(ttl, map[])
    {
      this.ttl := ttl;
      nextAllowed := map[];
    }

    method Cooling(key: nat, now: nat) returns (cooling: bool)
      ensures cooling <==> IsCooling(State(), key, now)
    {
      cooling := key in nextAllowed && now < nextAllowed[key];
    }

    method Mark(key: nat, now: nat)
      modifies this
      ensures State() == Marked(old(State()), key, now)
    {
      nextAllowed := nextAllowed[key := now + ttl];
    }
  }
}
