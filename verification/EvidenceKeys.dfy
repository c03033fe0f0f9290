/** Evidence keys: rotation and retirement over a store that may fail, what a
    failed call may report, and the tags made with each generation. */
module EvidenceKeys {
  import opened Bytes
  import Base64

  // ------------------------------------------------------------------ the registry

  const SCHEMA_VERSION := 1

  datatype Registry = Registry(version: nat, root: Bytes, active: Bytes, generations: map<Bytes, Bytes>)

  predicate HexDigit(b: Byte) {
    48 <= b <= 57 || 97 <= b <= 102
  }

  /** `sha256:` and sixty-four lower-case hexadecimal digits. */
  predicate ValidIdentity(s: Bytes) {
    && |s| == 71 && s[..7] == Ascii("sha256:")
    && forall i | 7 <= i < 71 :: HexDigit(s[i])
  }

  /** The thirty-two bytes of a stored key. */
  function DecodeKey(encoded: Bytes): Option<Bytes> {
    var key := Base64.Decode(encoded);
    if key.Some? && |key.value| == 32 then key else None
  }

  predicate ValidRegistry(r: Registry) {
    && r.version == SCHEMA_VERSION && ValidIdentity(r.root) && r.active in r.generations
    && forall id | id in r.generations :: DecodeKey(r.generations[id]).Some?
  }

  function Rotated(r: Registry, id: Bytes, key: Bytes): Registry {
    r.(active := id, generations := r.generations[id := Base64.Encode(key)])
  }

  function Retired(r: Registry, id: Bytes): Registry {
    r.(generations := r.generations - {id})
  }

  /** A registry of a state root, named by a digest in lower-case hexadecimal, with an
      active generation and a key of thirty-two bytes for every generation. */
  lemma ValidExactly(r: Registry)
    ensures ValidRegistry(r) <==>
              && r.version == 1
              && |r.root| == 71 && Ascii("sha256:") <= r.root
              && (forall i | 7 <= i < 71 ::
                    '0' as int <= r.root[i] <= '9' as int || 'a' as int <= r.root[i] <= 'f' as int)
              && r.active in r.generations
              && forall id | id in r.generations ::
                   exists key: Bytes :: |key| == 32 && Base64.Decode(r.generations[id]) == Some(key)
  {
    assert Ascii("sha256:") <= r.root <==> |r.root| >= 7 && r.root[..7] == Ascii("sha256:");
    forall id | id in r.generations
      ensures DecodeKey(r.generations[id]).Some? <==>
                exists key: Bytes :: |key| == 32 && Base64.Decode(r.generations[id]) == Some(key)
    {
      var key := Base64.Decode(r.generations[id]);
      assert key.Some? && |key.value| == 32 ==> Base64.Decode(r.generations[id]) == Some(key.value);
    }
  }

  /** The new generation is active and has the key; nothing else has changed. */
  predicate IsRotation(was: Registry, now: Registry, id: Bytes, key: Bytes) {
    && now.version == was.version && now.root == was.root && now.active == id
    && now.generations.Keys == was.generations.Keys + {id}
    && Base64.Decode(now.generations[id]) == Some(key)
    && forall g | g in was.generations && g != id :: now.generations[g] == was.generations[g]
  }

  /** The generation is gone; nothing else has changed. */
  predicate IsRetirement(was: Registry, now: Registry, id: Bytes) {
    && now.version == was.version && now.root == was.root && now.active == was.active
    && now.generations.Keys == was.generations.Keys - {id}
    && forall g | g in now.generations :: now.generations[g] == was.generations[g]
  }

  lemma RotatedIs(r: Registry, id: Bytes, key: Bytes)
    ensures IsRotation(r, Rotated(r, id, key), id, key)
  {
    Base64.DecodeEncode(key);
  }

  lemma RetiredIs(r: Registry, id: Bytes)
    ensures IsRetirement(r, Retired(r, id), id)
  {
  }

  // ------------------------------------------------------------------------- tags

  const MAC_DOMAIN_PREFIX: Bytes := Ascii("cfctl-evidence-authentication-v1") + [0]

  function Framed(components: seq<Bytes>): Bytes {
    if components == [] then []
    else ToBe(|components[0]|, 8) + components[0] + Framed(components[1..])
  }

  function Message(root: Bytes, id: Bytes, domain: Bytes, payload: Bytes): Bytes {
    Framed([MAC_DOMAIN_PREFIX, root, id, domain, payload])
  }

  /** The source's loop feeding the hasher. */
  method UpdateMac(root: Bytes, id: Bytes, domain: Bytes, payload: Bytes) returns (fed: Bytes)
    ensures fed == Message(root, id, domain, payload)
  {
    var components := [MAC_DOMAIN_PREFIX, root, id, domain, payload];
    fed := [];
    for i := 0 to |components|
      invariant fed + Framed(components[i..]) == Framed(components)
    {
      FramedGrows(components, i, fed);
      fed := fed + ToBe(|components[i]|, 8);
      fed := fed + components[i];
    }
  }

  lemma FramedGrows(components: seq<Bytes>, i: nat, fed: Bytes)
    requires i < |components| && fed + Framed(components[i..]) == Framed(components)
    ensures fed + ToBe(|components[i]|, 8) + components[i] + Framed(components[i + 1..]) == Framed(components)
  {
    var prefix, c := ToBe(|components[i]|, 8), components[i];
    hide ToBe;
    assert components[i..][1..] == components[i + 1..];
    assert fed + (prefix + c + Framed(components[i + 1..])) == fed + prefix + c + Framed(components[i + 1..]);
  }

  /** The message byte for byte: every component behind its length, the domain of this
      program first. */
  lemma MessageExactly(root: Bytes, id: Bytes, domain: Bytes, payload: Bytes)
    ensures Message(root, id, domain, payload) ==
              (ToBe(33, 8) + Ascii("cfctl-evidence-authentication-v1") + [0]) + (ToBe(|root|, 8) + root) +
              (ToBe(|id|, 8) + id) + (ToBe(|domain|, 8) + domain) + (ToBe(|payload|, 8) + payload)
  {
    hide ToBe, Framed;
    assert [MAC_DOMAIN_PREFIX, root, id, domain, payload] == [MAC_DOMAIN_PREFIX] + [root, id, domain, payload];
    FramedFirst(MAC_DOMAIN_PREFIX, [root, id, domain, payload]);
    FramedFirst(root, [id, domain, payload]);
    FramedFirst(id, [domain, payload]);
    FramedFirst(domain, [payload]);
    FramedFirst(payload, []);
    var a := ToBe(33, 8) + Ascii("cfctl-evidence-authentication-v1") + [0];
    Five(a, ToBe(|root|, 8) + root, ToBe(|id|, 8) + id, ToBe(|domain|, 8) + domain, ToBe(|payload|, 8) + payload);
    assert ToBe(33, 8) + MAC_DOMAIN_PREFIX == a;
  }

  lemma FramedFirst(c: Bytes, rest: seq<Bytes>)
    ensures Framed([]) == [] && Framed([c] + rest) == ToBe(|c|, 8) + c + Framed(rest)
    ensures rest == [] ==> [c] + rest == [c]
    ensures |rest| == 1 ==> [c] + rest == [c, rest[0]]
    ensures |rest| == 2 ==> [c] + rest == [c, rest[0], rest[1]]
    ensures |rest| == 3 ==> [c] + rest == [c, rest[0], rest[1], rest[2]]
  {
    hide ToBe;
    assert ([c] + rest)[1..] == rest;
  }

  lemma Five(a: Bytes, b: Bytes, c: Bytes, d: Bytes, e: Bytes)
    ensures a + (b + (c + (d + (e + [])))) == a + b + c + d + e
  {
  }

  predicate Sized(components: seq<Bytes>) {
    forall i | 0 <= i < |components| :: |components[i]| < Pow256(8)
  }

  /** Equal framings come from equal component lists, however many there are. */
  lemma {:induction false} FramingIsInjective(a: seq<Bytes>, b: seq<Bytes>)
    requires Sized(a) && Sized(b) && Framed(a) == Framed(b)
    ensures a == b
  {
    if a != [] && b != [] {
      var x, y := Framed(a), Framed(b);
      assert x[..8] == ToBe(|a[0]|, 8) && y[..8] == ToBe(|b[0]|, 8);
      FromToBe(|a[0]|, 8);
      FromToBe(|b[0]|, 8);
      var n := 8 + |a[0]|;
      assert x[8..n] == a[0] && y[8..n] == b[0];
      assert x[n..] == Framed(a[1..]) && y[n..] == Framed(b[1..]);
      FramingIsInjective(a[1..], b[1..]);
      assert a == [a[0]] + a[1..] && b == [b[0]] + b[1..];
    }
  }

  lemma MessageBindsEverything(root: Bytes, id: Bytes, domain: Bytes, payload: Bytes,
                               root': Bytes, id': Bytes, domain': Bytes, payload': Bytes)
    requires Sized([root, id, domain, payload]) && Sized([root', id', domain', payload'])
    requires Message(root, id, domain, payload) == Message(root', id', domain', payload')
    ensures root == root' && id == id' && domain == domain' && payload == payload'
  {
    var a := [MAC_DOMAIN_PREFIX, root, id, domain, payload];
    var b := [MAC_DOMAIN_PREFIX, root', id', domain', payload'];
    var c, d := [root, id, domain, payload], [root', id', domain', payload'];
    assert a[1..] == c && b[1..] == d;
    PowerValues();
    forall i | 0 <= i < |a| ensures |a[i]| < Pow256(8) && |b[i]| < Pow256(8) {
      if i > 0 {
        assert a[i] == c[i - 1] && b[i] == d[i - 1];
      }
    }
    FramingIsInjective(a, b);
  }

  type Mac = (Bytes, Bytes) -> Bytes

  const ALGORITHM: Bytes := Ascii("hmac-sha256")

  datatype Authentication = Authentication(algorithm: Bytes, generation: Bytes, tag: Bytes)

  /** The source's `authenticate`: a tag of the active generation, for its own state root. */
  function Authenticate(mac: Mac, r: Registry, root: Bytes, domain: Bytes, payload: Bytes): Option<Authentication>
    requires ValidRegistry(r)
  {
    if r.root != root then None
    else
      var key := DecodeKey(r.generations[r.active]).value;
      Some(Authentication(ALGORITHM, r.active, mac(key, Message(root, r.active, domain, payload))))
  }

  /** The source's `verify`. */
  predicate Verifies(mac: Mac, r: Registry, root: Bytes, domain: Bytes, payload: Bytes, a: Authentication)
    requires ValidRegistry(r)
  {
    && a.algorithm == ALGORITHM && r.root == root && a.generation in r.generations
    && a.tag == mac(DecodeKey(r.generations[a.generation]).value, Message(root, a.generation, domain, payload))
  }

  /** With a collision-free MAC a tag verifies for the state root, domain and payload
      it was made for and for no others. */
  lemma TagBindsPayload(mac: Mac, r: Registry, root: Bytes, domain: Bytes, payload: Bytes,
                        root': Bytes, domain': Bytes, payload': Bytes)
    requires ValidRegistry(r) && r.root == root
    requires Sized([root, r.active, domain, payload]) && Sized([root', r.active, domain', payload'])
    requires forall k, m, m' :: mac(k, m) == mac(k, m') ==> m == m'
    ensures Verifies(mac, r, root', domain', payload', Authenticate(mac, r, root, domain, payload).value)
            <==> root' == root && domain' == domain && payload' == payload
  {
    if Message(root, r.active, domain, payload) == Message(root', r.active, domain', payload') {
      MessageBindsEverything(root, r.active, domain, payload, root', r.active, domain', payload');
    }
  }

  /** Tags are made for the registry's own state root only, and verify exactly for it,
      under this program's algorithm and the key of the generation they name. */
  lemma VerifiesExactly(mac: Mac, r: Registry, root: Bytes, domain: Bytes, payload: Bytes, a: Authentication)
    requires ValidRegistry(r)
    ensures Authenticate(mac, r, root, domain, payload).Some? <==> root == r.root
    ensures Verifies(mac, r, root, domain, payload, a) <==>
              && root == r.root && a.algorithm == Ascii("hmac-sha256") && a.generation in r.generations
              && exists key: Bytes :: |key| == 32 && Base64.Decode(r.generations[a.generation]) == Some(key) &&
                                      a.tag == mac(key, Message(root, a.generation, domain, payload))
  {
    hide Ascii, Message;
    if a.generation in r.generations {
      var key := DecodeKey(r.generations[a.generation]).value;
      assert Base64.Decode(r.generations[a.generation]) == Some(key);
    }
  }

  /** After a rotation tags are made with the new generation and its key, and every tag
      that verified before still does. */
  lemma RotationTakesOver(mac: Mac, was: Registry, now: Registry, id: Bytes, key: Bytes,
                          domain: Bytes, payload: Bytes, a: Authentication)
    requires ValidRegistry(was) && |key| == 32 && id !in was.generations && IsRotation(was, now, id, key)
    ensures ValidRegistry(now)
    ensures Authenticate(mac, now, now.root, domain, payload) ==
              Some(Authentication(Ascii("hmac-sha256"), id, mac(key, Message(was.root, id, domain, payload))))
    ensures a.generation != id ==>
              (Verifies(mac, now, now.root, domain, payload, a) <==> Verifies(mac, was, was.root, domain, payload, a))
    ensures Verifies(mac, was, was.root, domain, payload, a) ==> Verifies(mac, now, now.root, domain, payload, a)
  {
  }

  /** After a retirement no tag of the generation verifies, and everything else is as
      it was, the generation used next included. */
  lemma RetirementRemoves(mac: Mac, was: Registry, now: Registry, id: Bytes,
                          domain: Bytes, payload: Bytes, a: Authentication)
    requires ValidRegistry(was) && id != was.active && IsRetirement(was, now, id)
    ensures ValidRegistry(now)
    ensures Authenticate(mac, now, now.root, domain, payload) == Authenticate(mac, was, was.root, domain, payload)
    ensures Verifies(mac, now, now.root, domain, payload, a) <==>
              a.generation != id && Verifies(mac, was, was.root, domain, payload, a)
  {
  }

  // ------------------------------------------------------------------------ histories

  predicate NeverUsed(h: seq<Registry>, t: nat, id: Bytes)
    requires t <= |h|
  {
    forall s | 0 <= s < t :: id !in h[s].generations
  }

  ghost predicate Rotation(h: seq<Registry>, t: nat, id: Bytes, key: Bytes)
    requires 0 < t < |h|
  {
    |key| == 32 && NeverUsed(h, t, id) && h[t] == Rotated(h[t - 1], id, key)
  }

  ghost predicate Retirement(h: seq<Registry>, t: nat, id: Bytes)
    requires 0 < t < |h|
  {
    id != h[t - 1].active && h[t] == Retired(h[t - 1], id)
  }

  ghost predicate Evolves(h: seq<Registry>, t: nat)
    requires 0 < t < |h|
  {
    || h[t] == h[t - 1]
    || (exists id, key :: Rotation(h, t, id, key))
    || (exists id :: Retirement(h, t, id))
  }

  /** The registries a key authority has had, each made from the one before. */
  ghost predicate Lifetime(h: seq<Registry>) {
    && |h| > 0 && (forall t | 0 <= t < |h| :: ValidRegistry(h[t]))
    && (forall t {:trigger Evolves(h, t)} | 0 < t < |h| :: Evolves(h, t))
  }

  lemma RotatedIsValid(r: Registry, id: Bytes, key: Bytes)
    requires ValidRegistry(r) && |key| == 32
    ensures ValidRegistry(Rotated(r, id, key))
  {
    Base64.DecodeEncode(key);
  }

  lemma RetiredIsValid(r: Registry, id: Bytes)
    requires ValidRegistry(r) && id != r.active
    ensures ValidRegistry(Retired(r, id))
  {
  }

  lemma CurrentIsValid(h: seq<Registry>)
    requires Lifetime(h)
    ensures ValidRegistry(h[|h| - 1])
  {
  }

  lemma EvolvesStill(h: seq<Registry>, r: Registry, t: nat)
    requires 0 < t < |h| && Evolves(h, t)
    ensures Evolves(h + [r], t)
  {
    var longer := h + [r];
    if id, key :| Rotation(h, t, id, key) {
      assert forall s | 0 <= s < t :: longer[s] == h[s];
      assert Rotation(longer, t, id, key);
    } else if id :| Retirement(h, t, id) {
      assert Retirement(longer, t, id);
    }
  }

  lemma Extends(h: seq<Registry>, r: Registry)
    requires Lifetime(h) && ValidRegistry(r) && Evolves(h + [r], |h|)
    ensures Lifetime(h + [r])
  {
    hide ValidRegistry;
    forall t | 0 < t < |h| ensures Evolves(h + [r], t) {
      EvolvesStill(h, r, t);
    }
  }

  lemma ExtendsByRotation(h: seq<Registry>, id: Bytes, key: Bytes, r: Registry)
    requires Lifetime(h) && |key| == 32 && NeverUsed(h, |h|, id)
    requires r in {h[|h| - 1], Rotated(h[|h| - 1], id, key)}
    ensures Lifetime(h + [r])
  {
    RotatedIsValid(h[|h| - 1], id, key);
    if r != h[|h| - 1] {
      assert Rotation(h + [r], |h|, id, key);
    }
    Extends(h, r);
  }

  lemma ExtendsByRetirement(h: seq<Registry>, id: Bytes, r: Registry)
    requires Lifetime(h) && id != h[|h| - 1].active
    requires r in {h[|h| - 1], Retired(h[|h| - 1], id)}
    ensures Lifetime(h + [r])
  {
    if r != h[|h| - 1] {
      assert Retirement(h + [r], |h|, id);
    }
    Extends(h, r);
  }

  /** A generation present at two times has the same key and root at both. */
  lemma {:induction false} KeysNeverChange(h: seq<Registry>, s: nat, t: nat, id: Bytes)
    requires Lifetime(h) && s <= t < |h| && id in h[s].generations && id in h[t].generations
    ensures h[t].generations[id] == h[s].generations[id] && h[t].root == h[s].root
    decreases t
  {
    hide ValidRegistry;
    if s < t {
      assert Evolves(h, t);
      if fresh_, key :| Rotation(h, t, fresh_, key) {
        assert fresh_ != id;
      }
      KeysNeverChange(h, s, t - 1, id);
    }
  }

  /** A retired generation never comes back. */
  lemma {:induction false} RetiredForGood(h: seq<Registry>, s: nat, u: nat, t: nat, id: Bytes)
    requires Lifetime(h) && s <= u <= t < |h| && id in h[s].generations && id !in h[u].generations
    ensures id !in h[t].generations
    decreases t
  {
    hide ValidRegistry;
    if u < t {
      assert Evolves(h, t);
      if other, key :| Rotation(h, t, other, key) {
        assert other != id;
      }
      RetiredForGood(h, s, u, t - 1, id);
    }
  }

  lemma {:induction false} RootNeverChanges(h: seq<Registry>, s: nat, t: nat)
    requires Lifetime(h) && s <= t < |h|
    ensures h[t].root == h[s].root
    decreases t
  {
    hide ValidRegistry;
    if s < t {
      assert Evolves(h, t);
      RootNeverChanges(h, s, t - 1);
    }
  }

  /** Over any history, a tag made at one time verifies at a later one exactly while
      its generation is retained; and the generation used next is always present. */
  lemma TagVerifiesWhileRetained(mac: Mac, h: seq<Registry>, s: nat, t: nat, domain: Bytes, payload: Bytes)
    requires Lifetime(h) && s <= t < |h|
    ensures var root := h[s].root;
            var a := Authenticate(mac, h[s], root, domain, payload).value;
            Verifies(mac, h[t], root, domain, payload, a) <==> a.generation in h[t].generations
    ensures h[t].active in h[t].generations
  {
    RootNeverChanges(h, s, t);
    var id := h[s].active;
    if id in h[t].generations {
      KeysNeverChange(h, s, t, id);
    }
  }

  // ---------------------------------------------------------------- the transitions

  /** What the store holds under the registry key. */
  datatype Stored = Readable(registry: Registry) | Unreadable

  datatype Report = Committed | Unchanged | Indeterminate | Refused

  /** A report that is true of the registries before and after a transition. */
  predicate Told(report: Report, was: Registry, now: Registry, intended: Registry) {
    && now in {was, intended}
    && (report.Committed? ==> now == intended)
    && (report in {Unchanged, Refused} ==> now == was)
  }

  /** The same, of a change told by what it does. */
  predicate Reported(report: Report, was: Registry, now: Registry, changed: bool) {
    && (now == was || changed)
    && (report.Committed? ==> changed)
    && (report in {Unchanged, Refused} ==> now == was)
  }

  predicate MayRetire(r: Registry, id: Bytes) {
    id != r.active && id in r.generations
  }

  /** Whoever else writes, a committed call leaves its change to a registry of the
      same root that it read. */
  ghost predicate HoldsRotation(stored: Option<Stored>, root: Bytes, id: Bytes, key: Bytes) {
    && stored.Some? && stored.value.Readable?
    && exists r :: ValidRegistry(r) && r.root == root && IsRotation(r, stored.value.registry, id, key)
  }

  ghost predicate HoldsRetirement(stored: Option<Stored>, root: Bytes, id: Bytes) {
    && stored.Some? && stored.value.Readable?
    && exists r :: ValidRegistry(r) && r.root == root && MayRetire(r, id) &&
                   IsRetirement(r, stored.value.registry, id)
  }

  lemma RotationHeld(r: Registry, id: Bytes, key: Bytes)
    requires ValidRegistry(r)
    ensures HoldsRotation(Some(Readable(Rotated(r, id, key))), r.root, id, key)
  {
    RotatedIs(r, id, key);
  }

  lemma RetirementHeld(r: Registry, id: Bytes)
    requires ValidRegistry(r) && MayRetire(r, id)
    ensures HoldsRetirement(Some(Readable(Retired(r, id))), r.root, id)
  {
    RetiredIs(r, id);
  }

  class Manager {
    var stored: Option<Stored>
    const shared: bool    // another writer may reach the same store
    const reliable: bool  // no store operation fails and the backend is the required one
    const readable: bool  // reads do not, whatever becomes of writes
    ghost var history: seq<Registry>

    ghost predicate Valid()
      reads this
    {
      && Lifetime(history)
      && (!shared ==> stored == Some(Readable(history[|history| - 1])))
    }

    constructor (r: Registry, shared: bool, reliable: bool, readable: bool)
      requires ValidRegistry(r)
      ensures Valid() && stored == Some(Readable(r)) && this.shared == shared
      ensures this.reliable == reliable && this.readable == readable
    {
      this.stored := Some(Readable(r));
      this.shared, this.reliable, this.readable := shared, reliable, readable;
      this.history := [r];
    }

    method Others()
      modifies this`stored
      ensures !shared ==> stored == old(stored)
    {
      if shared {
        stored := *;
      }
    }

    method ReadFails() returns (fail: bool)
      ensures reliable || readable ==> !fail
    {
      fail := *;
      if reliable || readable {
        fail := false;
      }
    }

    method RawPut(r: Registry) returns (ok: bool)
      modifies this`stored
      ensures stored == Some(Readable(r)) || (!ok && stored == old(stored))
      ensures reliable ==> ok
    {
      ok := *;
      var effect: bool := *;
      if reliable {
        ok := true;
      }
      if ok || effect {
        stored := Some(Readable(r));
      }
    }

    /** The source's `load_registry`: read, check the backend, decode, validate. */
    method LoadRegistry() returns (r: Result<Option<Registry>, ()>)
      ensures r.Ok? && r.value.None? ==> stored == None
      ensures r.Ok? && r.value.Some? ==> stored == Some(Readable(r.value.value)) && ValidRegistry(r.value.value)
      ensures reliable || readable ==>
                r == if stored.None? then Ok(None)
                     else if stored.value.Readable? && ValidRegistry(stored.value.registry)
                     then Ok(Some(stored.value.registry)) else Err(())
    {
      var fail := ReadFails();
      if fail {
        return Err(());
      }
      if stored.None? {
        return Ok(None);
      }
      var elsewhere := ReadFails();
      if elsewhere || stored.value.Unreadable? || !ValidRegistry(stored.value.registry) {
        return Err(());
      }
      r := Ok(Some(stored.value.registry));
    }

    /** The source's `save_registry`: write, check the backend, read back, compare. */
    method SaveRegistry(r: Registry) returns (ok: bool)
      modifies this`stored
      ensures !ValidRegistry(r) ==> !ok && stored == old(stored)
      ensures ok ==> stored == Some(Readable(r))
      ensures !shared ==> stored in {old(stored), Some(Readable(r))}
      ensures reliable && !shared && ValidRegistry(r) ==> ok
    {
      if !ValidRegistry(r) {
        return false;
      }
      ok := RawPut(r);
      if !ok {
        return;
      }
      Others();
      var elsewhere := ReadFails();
      if elsewhere {
        return false;
      }
      var readback := LoadRegistry();
      ok := readback.Ok? && readback.value.Some?
            && readback.value.value.root == r.root && readback.value.value.active == r.active
            && readback.value.value.generations == r.generations;
    }

    /** The source's `commit_registry_transition`. Its report is true of the store it
        last read: committed means the intended registry is there, unchanged means
        the exact registry from before is. */
    method Commit(before: Registry, after: Registry) returns (report: Report)
      requires ValidRegistry(before) && (!shared ==> stored == Some(Readable(before)))
      modifies this`stored
      ensures report.Committed? ==> stored == Some(Readable(after)) && ValidRegistry(after)
      ensures report.Unchanged? ==> stored == Some(Readable(before))
      ensures report.Refused? <==> !ValidRegistry(after)
      ensures report.Refused? ==> stored == old(stored)
      ensures !shared ==> stored in {old(stored), Some(Readable(after))}
      ensures readable && !shared && ValidRegistry(after) ==>
                report == if stored == Some(Readable(after)) then Committed else Unchanged
      ensures reliable && !shared && ValidRegistry(after) ==> report.Committed?
    {
      if !ValidRegistry(after) {
        return Refused;
      }
      var saved := SaveRegistry(after);
      if saved {
        return Committed;
      }
      Others();
      var readback := LoadRegistry();
      report :=
        if readback.Err? || readback.value.None? then Indeterminate
        else if readback.value.value == after then Committed
        else if readback.value.value == before then Unchanged
        else Indeterminate;
    }

    /** The source's `require_registry`. */
    method RequireRegistry(root: Bytes) returns (r: Option<Registry>)
      ensures r.Some? ==> stored == Some(Readable(r.value)) && ValidRegistry(r.value) && r.value.root == root
      ensures reliable && stored.Some? && stored.value.Readable? && ValidRegistry(stored.value.registry) ==>
                (r.Some? <==> stored.value.registry.root == root)
    {
      var loaded := LoadRegistry();
      r := if loaded.Ok? && loaded.value.Some? && loaded.value.value.root == root then loaded.value else None;
    }

    /** Commit a transition and record what is then stored. */
    method Transition(before: Registry, after: Registry) returns (report: Report)
      requires Valid() && ValidRegistry(before) && ValidRegistry(after)
      requires !shared ==> stored == Some(Readable(before))
      requires !shared ==> Lifetime(history + [before]) && Lifetime(history + [after])
      modifies this
      ensures Valid() && old(history) <= history
      ensures report.Committed? ==> stored == Some(Readable(after))
      ensures !shared ==> Told(report, before, history[|history| - 1], after)
      ensures !shared && readable ==> report in {Committed, Unchanged}
      ensures !shared && reliable ==> report.Committed?
    {
      hide Lifetime, ValidRegistry;
      Others();
      report := Commit(before, after);
      if !shared {
        history := history + [stored.value.registry];
      }
    }

    /** Rotation: the new generation becomes active and every old one stays. */
    method Rotate(root: Bytes, id: Bytes, key: Bytes) returns (report: Report)
      requires Valid() && |key| == 32 && NeverUsed(history, |history|, id)
      modifies this
      ensures Valid() && old(history) <= history
      ensures report.Committed? ==> HoldsRotation(stored, root, id, key)
      ensures !shared ==>
                var was := old(history[|history| - 1]);
                Reported(report, was, history[|history| - 1], IsRotation(was, history[|history| - 1], id, key)) &&
                (readable ==> !report.Indeterminate?) &&
                (reliable ==> (report.Committed? <==> was.root == root))
    {
      hide Lifetime, ValidRegistry, NeverUsed, Rotated, Retired;
      hide HoldsRotation, HoldsRetirement, IsRotation, IsRetirement;
      CurrentIsValid(history);
      var before := RequireRegistry(root);
      if before.None? {
        return Refused;
      }
      RotatedIsValid(before.value, id, key);
      RotationHeld(before.value, id, key);
      RotatedIs(before.value, id, key);
      if !shared {
        ExtendsByRotation(history, id, key, before.value);
        ExtendsByRotation(history, id, key, Rotated(before.value, id, key));
      }
      report := Transition(before.value, Rotated(before.value, id, key));
    }

    /** Retirement: an unused generation that is not the active one is removed. */
    method Retire(root: Bytes, id: Bytes, artifacts: nat) returns (report: Report)
      requires Valid()
      modifies this
      ensures Valid() && old(history) <= history
      ensures report.Committed? ==> artifacts == 0 && HoldsRetirement(stored, root, id)
      ensures !shared ==>
                var was := old(history[|history| - 1]);
                Reported(report, was, history[|history| - 1], IsRetirement(was, history[|history| - 1], id)) &&
                (readable ==> !report.Indeterminate?) &&
                (reliable ==>
                   (report.Committed? <==>
                      was.root == root && id != was.active && id in was.generations && artifacts == 0))
    {
      hide Lifetime, ValidRegistry, NeverUsed, Rotated, Retired;
      hide HoldsRotation, HoldsRetirement, IsRotation, IsRetirement;
      CurrentIsValid(history);
      var before := RequireRegistry(root);
      if before.None? || before.value.active == id || artifacts != 0 || id !in before.value.generations {
        return Refused;
      }
      RetiredIsValid(before.value, id);
      RetirementHeld(before.value, id);
      RetiredIs(before.value, id);
      if !shared {
        ExtendsByRetirement(history, id, before.value);
        ExtendsByRetirement(history, id, Retired(before.value, id));
      }
      report := Transition(before.value, Retired(before.value, id));
    }
  }
}
