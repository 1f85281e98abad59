/**
 Key pinning in the client: trust on first use, flag every change, hold all sending until the user
 confirms. The pins are proved to be a function of the trace of what was observed, and that function
 is proved to mean what the design promises.
 */
module Pins {
  import opened Bytes
  import opened Fingerprint

  type Handle = string

  /** `ok == false`: keys changed, awaiting the user. */
  datatype Pin = Pin(fp: string, ok: bool)

  /** A pin as it appears in JSON: the older bare fingerprint, or a record whose fields may be missing
      (a missing fingerprint reads as the empty string). */
  datatype Stored = Bare(fp: string) | Fields(fp: string, ok: Option<bool>)

  /** The one key an object literal cannot hold: assigning it sets the prototype instead. */
  const PROTO: Handle := "__proto__"

  // ---- pin-utils ---------------------------------------------------------------------

  function ParsePin(v: Stored): Pin {
    match v
    case Bare(fp) => Pin(fp, true)
    case Fields(fp, ok) => Pin(fp, ok != Some(false))
  }

  function ParsePins(raw: map<Handle, Stored>): map<Handle, Pin> {
    map h | h in raw :: ParsePin(raw[h])
  }

  function PinsObject(pins: map<Handle, Pin>): map<Handle, Stored> {
    map h | h in pins && h != PROTO :: Fields(pins[h].fp, Some(pins[h].ok))
  }

  /** `pinsToObject` fills its object entry by entry. */
  method PinsToObject(pins: map<Handle, Pin>) returns (o: map<Handle, Stored>)
    ensures o == PinsObject(pins)
  {
    o := map[];
    var left := pins.Keys;
    while left != {}
      invariant left <= pins.Keys
      invariant o == map h | h in pins && h !in left && h != PROTO :: Fields(pins[h].fp, Some(pins[h].ok))
      decreases left
    {
      var h :| h in left;
      left := left - {h};
      if h != PROTO { o := o[h := Fields(pins[h].fp, Some(pins[h].ok))]; }
    }
  }

  /** Saving and loading gives every pin back except one stored under the prototype key: the round
      trip is exact if and only if there is none. */
  lemma SaveLoad(pins: map<Handle, Pin>)
    ensures ParsePins(PinsObject(pins)) == pins - {PROTO}
    ensures ParsePins(PinsObject(pins)) == pins <==> PROTO !in pins
  {}

  /** `mergeSyncedPin`: the local fingerprint wins, and any doubt on either side stays. */
  function MergeSynced(local: Option<Pin>, synced: Stored): Option<Pin> {
    if synced.Bare? || synced.fp == "" then local
    else
      match local
      case None => Some(Pin(synced.fp, synced.ok != Some(false)))
      case Some(p) =>
        if p.fp != synced.fp || !p.ok || synced.ok == Some(false) then Some(Pin(p.fp, false)) else local
  }

  /** A stored pin is untrusted only if it says so; an older bare fingerprint is trusted. */
  lemma ParsePinLaw(v: Stored)
    ensures ParsePin(v).fp == v.fp
    ensures !ParsePin(v).ok <==> v.Fields? && v.ok == Some(false)
  {}

  /** What a merge leaves, for every pair: a synced pin without a fingerprint changes nothing; a first one is
      recorded with its own fingerprint and flag; otherwise the local fingerprint stays, trusted only if it
      was, both agree, and the other side does not say otherwise. */
  lemma MergeLaw(local: Option<Pin>, s: Stored)
    ensures s.Bare? || s.fp == "" ==> MergeSynced(local, s) == local
    ensures s.Fields? && s.fp != "" ==> MergeSynced(local, s).Some?
    ensures s.Fields? && s.fp != "" && local.None? ==>
              MergeSynced(local, s).value.fp == s.fp && (MergeSynced(local, s).value.ok <==> s.ok != Some(false))
    ensures s.Fields? && s.fp != "" && local.Some? ==>
              && MergeSynced(local, s).value.fp == local.value.fp
              && (MergeSynced(local, s).value.ok <==> local.value.ok && local.value.fp == s.fp && s.ok != Some(false))
  {}

  // ---- the trace of observations and what it implies ------------------------------------

  datatype Obs =
    | Saw(h: Handle, fp: string)        // a card set for h was taken in
    | Synced(h: Handle, s: Stored)      // another device's pin for h arrived
    | Confirmed(h: Handle)              // the user marked h verified
    | Restarted                         // pins were saved and loaded again

  /** The pin of a handle as its history determines it. */
  function Recorded(trace: seq<Obs>, h: Handle): Option<Pin> {
    if trace == [] then None
    else
      var before, o := Recorded(trace[..|trace|-1], h), trace[|trace|-1];
      match o
      case Saw(x, fp) =>
        if x != h then before
        else (match before
              case None => Some(Pin(fp, true))
              case Some(p) => if p.fp == fp then before else Some(Pin(fp, false)))
      case Synced(x, s) => if x != h then before else MergeSynced(before, s)
      case Confirmed(x) => if x != h || before == None then before else Some(Pin(before.value.fp, true))
      case Restarted => if h == PROTO then None else before
  }

  /** Observation i established `fp` for h: it was the first ever recorded, or the user confirmed it. */
  ghost predicate Established(trace: seq<Obs>, h: Handle, fp: string, i: nat)
    requires i < |trace|
  {
    match trace[i]
    case Saw(x, f) => x == h && f == fp && Recorded(trace[..i], h) == None
    case Synced(x, s) =>
      && x == h && Recorded(trace[..i], h) == None
      && s.Fields? && s.fp == fp && fp != "" && s.ok != Some(false)
    case Confirmed(x) => x == h && Recorded(trace[..i], h).Some? && Recorded(trace[..i], h).value.fp == fp
    case Restarted => false
  }

  /** This observation speaks against `fp` as the trusted fingerprint of h. */
  ghost predicate Contradicts(o: Obs, h: Handle, fp: string) {
    match o
    case Saw(x, f) => x == h && f != fp
    case Synced(x, s) => x == h && s.Fields? && s.fp != "" && (s.fp != fp || s.ok == Some(false))
    case _ => false
  }

  ghost predicate TrustedSince(trace: seq<Obs>, h: Handle, fp: string, i: nat)
    requires i < |trace|
  {
    Established(trace, h, fp, i) && forall j :: i < j < |trace| ==> !Contradicts(trace[j], h, fp)
  }

  lemma TrustedSnoc(trace: seq<Obs>, o: Obs, h: Handle, fp: string, i: nat)
    requires i < |trace|
    ensures TrustedSince(trace + [o], h, fp, i) <==> TrustedSince(trace, h, fp, i) && !Contradicts(o, h, fp)
  {
    var longer := trace + [o];
    assert longer[..i] == trace[..i];
    assert forall j :: 0 <= j < |trace| ==> longer[j] == trace[j];
    assert longer[|trace|] == o;
  }

  /**
   What a trusted pin means, in both directions and for every history: h is pinned to fp with ok
   true if and only if fp was the first fingerprint recorded for h or the one the user confirmed,
   and nothing observed since contradicts it.
   */
  lemma {:induction false} TrustMeans(trace: seq<Obs>, h: Handle, fp: string)
    requires h != PROTO
    ensures Recorded(trace, h) == Some(Pin(fp, true))
       <==> exists i :: 0 <= i < |trace| && TrustedSince(trace, h, fp, i)
  {
    if trace != [] {
      var n := |trace| - 1;
      var init, o := trace[..n], trace[n];
      assert trace == init + [o];
      TrustMeans(init, h, fp);
      forall i: nat | i < n
        ensures TrustedSince(trace, h, fp, i) <==> TrustedSince(init, h, fp, i) && !Contradicts(o, h, fp)
      {
        TrustedSnoc(init, o, h, fp, i);
      }
      assert TrustedSince(trace, h, fp, n) <==> Established(trace, h, fp, n);
      TrustStep(init, o, h, fp);
      if Recorded(trace, h) == Some(Pin(fp, true)) {
        if Established(trace, h, fp, n) {
          assert TrustedSince(trace, h, fp, n);
        } else {
          var i :| 0 <= i < |init| && TrustedSince(init, h, fp, i);
          assert TrustedSince(trace, h, fp, i);
        }
      }
    }
  }

  /** One observation: trust is established by it, or carried over it. */
  lemma TrustStep(init: seq<Obs>, o: Obs, h: Handle, fp: string)
    requires h != PROTO
    ensures var trace := init + [o];
            Recorded(trace, h) == Some(Pin(fp, true))
            <==> Established(trace, h, fp, |init|)
                 || (Recorded(init, h) == Some(Pin(fp, true)) && !Contradicts(o, h, fp))
  {
    hide MergeSynced;
    var trace := init + [o];
    assert trace[..|init|] == init && trace[|init|] == o;
    if o.Synced? { MergeTrust(Recorded(init, h), o.s, fp); }
  }

  /** A merge ends in trust only where trust was, or as the first thing recorded. */
  lemma MergeTrust(local: Option<Pin>, s: Stored, fp: string)
    ensures local.None? ==>
              (MergeSynced(local, s) == Some(Pin(fp, true))
               <==> s.Fields? && s.fp == fp && fp != "" && s.ok != Some(false))
    ensures local.Some? ==>
              (MergeSynced(local, s) == Some(Pin(fp, true))
               <==> local == Some(Pin(fp, true)) && !(s.Fields? && s.fp != "" && (s.fp != fp || s.ok == Some(false))))
  {}

  /** Why the prototype key is excluded: its pin does not survive a restart, so a changed key is
      trusted again without any confirmation. */
  lemma PrototypeKeyForgets(a: string, b: string)
    requires a != b
    ensures Recorded([Saw(PROTO, a), Saw(PROTO, b)], PROTO) == Some(Pin(b, false))
    ensures Recorded([Saw(PROTO, a), Saw(PROTO, b), Restarted, Saw(PROTO, b)], PROTO) == Some(Pin(b, true))
  {}

  // ---- the client ------------------------------------------------------------------------

  datatype Card = Card(mailbox: bytes, sign: SignKey)

  function SignKeys(cards: seq<Card>): seq<SignKey> {
    if cards == [] then [] else [cards[0].sign] + SignKeys(cards[1..])
  }

  /** The fingerprint of a card set; the empty string for none. */
  function CardsFingerprint(c: Codec, cards: seq<Card>): (fp: string)
    requires c.Valid()
    ensures fp == "" <==> cards == []
  {
    if cards == [] then "" else KeysFingerprint(c, SignKeys(cards))
  }

  function SignsOf(cards: seq<Card>): (keys: seq<SignKey>)
    ensures |keys| == |cards|
  {
    seq(|cards|, i requires 0 <= i < |cards| => cards[i].sign)
  }

  lemma {:induction false} SignKeysAre(cards: seq<Card>)
    ensures SignKeys(cards) == SignsOf(cards)
  {
    if cards != [] {
      SignKeysAre(cards[1..]);
      assert SignsOf(cards) == [cards[0].sign] + SignsOf(cards[1..]);
    }
  }

  /** The pin machine's fingerprints tell card sets apart exactly by the signing keys in them. */
  lemma CardsFingerprintExact(c: Codec, a: seq<Card>, b: seq<Card>)
    requires c.Valid() && ToldApart(c, SignsOf(a), SignsOf(b))
    ensures CardsFingerprint(c, a) == CardsFingerprint(c, b) <==> multiset(SignsOf(a)) == multiset(SignsOf(b))
  {
    hide KeysFingerprint;
    SignKeysAre(a);
    SignKeysAre(b);
    FingerprintExact(c, SignsOf(a), SignsOf(b));
    FingerprintLength(c, a);
    FingerprintLength(c, b);
    assert |multiset(SignsOf(a))| == |a| && |multiset(SignsOf(b))| == |b|;
  }

  lemma FingerprintLength(c: Codec, cards: seq<Card>)
    requires c.Valid()
    ensures |CardsFingerprint(c, cards)| == if cards == [] then 0 else 64
  {}

  function Lookup<V>(m: map<Handle, V>, h: Handle): Option<V> {
    if h in m then Some(m[h]) else None
  }

  datatype Emission = Emission(to: Handle, card: Card)

  /** What becomes of an incoming message, as far as its sender goes; `flagged` marks keys not re-confirmed. */
  datatype Verdict = Dropped | FromSelf | FromPeer(flagged: bool)

  function SyncedPins(synced: seq<(Handle, Stored)>): (seen: seq<Obs>)
    ensures |seen| == |synced|
  {
    seq(|synced|, i requires 0 <= i < |synced| => Synced(synced[i].0, synced[i].1))
  }

  class PinClient {
    const codec: Codec
    const user: Handle
    const norm: Handle -> Handle      // trim and lower-case
    var pins: map<Handle, Pin>
    var contacts: map<Handle, seq<Card>>
    var blocked: set<Handle>
    var storedPins: map<Handle, Stored>
    ghost var trace: seq<Obs>

    /** Someone else, with a handle the pin checks accept. */
    predicate Peer(h: Handle) { h != "" && h != user }

    ghost predicate Valid()
      reads this
    {
      && codec.Valid()
      && (forall h :: Lookup(pins, h) == Recorded(trace, h))
      && storedPins == PinsObject(pins)
      && forall h :: h in contacts && Peer(h) && contacts[h] != [] ==>
           h in pins && pins[h].fp == CardsFingerprint(codec, contacts[h])
    }

    constructor (codec: Codec, user: Handle, norm: Handle -> Handle)
      requires codec.Valid()
      ensures Valid() && trace == [] && this.user == user && this.codec == codec && this.norm == norm
    {
      this.codec, this.user, this.norm := codec, user, norm;
      pins, contacts, blocked, storedPins, trace := map[], map[], {}, map[], [];
    }

    /** No pin is ever dropped or quietly trusted again: it keeps its value or becomes unverified. */
    ghost predicate OnlyDoubts(before: map<Handle, Pin>, after: map<Handle, Pin>) {
      forall h :: h in before ==> h in after && (after[h] == before[h] || !after[h].ok)
    }

    // ---- what each intake observes, and what it leaves on record ---------------------------

    /** Cards of a peer are observed; no cards, or our own, are not. */
    function Seen(h: Handle, cards: seq<Card>): seq<Obs>
      requires codec.Valid()
    {
      if Peer(h) && cards != [] then [Saw(h, CardsFingerprint(codec, cards))] else []
    }

    /** A lookup that may be followed: not our own handle, not a blocked one. */
    predicate Usable(blockedNow: set<Handle>, h: Handle, answer: Option<seq<Card>>) {
      Peer(h) && h !in blockedNow && answer.Some? && answer.value != []
    }

    /** The observations of the first n answers of a refresh of `handles`. */
    function SeenInAnswers(blockedNow: set<Handle>, handles: seq<Handle>, answers: seq<Option<seq<Card>>>,
                           n: nat): seq<Obs>
      requires codec.Valid() && n <= |handles| == |answers|
    {
      if n == 0 then []
      else
        var h, answer := norm(handles[n-1]), answers[n-1];
        SeenInAnswers(blockedNow, handles, answers, n - 1)
        + if Usable(blockedNow, h, answer) then Seen(h, answer.value) else []
    }

    /** The contacts after them: the last usable answer for a handle stands. */
    function ContactsAfterAnswers(had: map<Handle, seq<Card>>, blockedNow: set<Handle>, handles: seq<Handle>,
                                  answers: seq<Option<seq<Card>>>, n: nat): map<Handle, seq<Card>>
      requires n <= |handles| == |answers|
    {
      if n == 0 then had
      else
        var before := ContactsAfterAnswers(had, blockedNow, handles, answers, n - 1);
        var h, answer := norm(handles[n-1]), answers[n-1];
        if Usable(blockedNow, h, answer) then before[h := answer.value] else before
    }

    /** The same for the first n entries of a stored contact list, which are not looked up. */
    function SeenInEntries(entries: seq<(Handle, seq<Card>)>, n: nat): seq<Obs>
      requires codec.Valid() && n <= |entries|
    {
      if n == 0 then [] else SeenInEntries(entries, n - 1) + Seen(entries[n-1].0, entries[n-1].1)
    }

    function ContactsAfterEntries(had: map<Handle, seq<Card>>, entries: seq<(Handle, seq<Card>)>,
                                  n: nat): map<Handle, seq<Card>>
      requires n <= |entries|
    {
      if n == 0 then had else ContactsAfterEntries(had, entries, n - 1)[entries[n-1].0 := entries[n-1].1]
    }

    // ---- card intake -----------------------------------------------------------------------

    /** `checkPin` followed by storing the cards, the pair every card intake performs. */
    method TakeCards(h: Handle, cards: seq<Card>)
      requires Valid()
      modifies this`pins, this`contacts, this`storedPins, this`trace
      ensures Valid() && contacts == old(contacts)[h := cards]
      ensures OnlyDoubts(old(pins), pins)
      ensures trace == old(trace) + Seen(h, cards)
      ensures Peer(h) && cards != [] && h in old(pins) && old(pins)[h].fp != CardsFingerprint(codec, cards) ==>
                h in pins && pins[h] == Pin(CardsFingerprint(codec, cards), false)
    {
      hide Recorded, CardsFingerprint, PinsObject;
      CheckPin(h, cards);
      contacts := contacts[h := cards];
      forall k | k in contacts && Peer(k) && contacts[k] != []
        ensures k in pins && pins[k].fp == CardsFingerprint(codec, contacts[k])
      {
        assert k != h ==> Lookup(pins, k) == Lookup(old(pins), k);
      }
    }

    /** `checkPin`: pin on first sight, flag a change, leave everything else alone. */
    method CheckPin(h: Handle, cards: seq<Card>)
      requires codec.Valid() && (forall k :: Lookup(pins, k) == Recorded(trace, k)) && storedPins == PinsObject(pins)
      modifies this`pins, this`storedPins, this`trace
      ensures (forall k :: Lookup(pins, k) == Recorded(trace, k)) && storedPins == PinsObject(pins)
      ensures OnlyDoubts(old(pins), pins)
      ensures forall k :: k != h ==> Lookup(pins, k) == Lookup(old(pins), k)
      ensures trace == old(trace) + Seen(h, cards)
      ensures Peer(h) && cards != [] ==> h in pins && pins[h].fp == CardsFingerprint(codec, cards)
      ensures Peer(h) && cards != [] && h in old(pins) ==>
                pins[h].ok == (old(pins)[h].ok && old(pins)[h].fp == CardsFingerprint(codec, cards))
    {
      if h == "" || h == user { return; }
      var fp := CardsFingerprint(codec, cards);
      if fp == "" { return; }
      ghost var seen := Saw(h, fp);
      assert (trace + [seen])[..|trace|] == trace;
      trace := trace + [seen];
      if h !in pins {
        pins := pins[h := Pin(fp, true)];
        storedPins := PinsToObject(pins);
        return;
      }
      if pins[h].fp == fp { return; }
      pins := pins[h := Pin(fp, false)];
      storedPins := PinsToObject(pins);
    }

    /** `markVerified` */
    method MarkVerified(h: Handle)
      requires Valid()
      modifies this`pins, this`storedPins, this`trace
      ensures Valid() && trace == old(trace) + [Confirmed(h)]
      ensures pins == if h in old(pins) then old(pins)[h := Pin(old(pins)[h].fp, true)] else old(pins)
    {
      assert (trace + [Confirmed(h)])[..|trace|] == trace;
      trace := trace + [Confirmed(h)];
      if h !in pins { return; }
      pins := pins[h := pins[h].(ok := true)];
      storedPins := PinsToObject(pins);
    }

    /** `fetchBundle`; `answer` is the server's card list, None for any failure. */
    method FetchBundle(handle: Handle, answer: Option<seq<Card>>) returns (ok: bool)
      requires Valid()
      modifies this`pins, this`contacts, this`storedPins, this`trace
      ensures Valid() && OnlyDoubts(old(pins), pins)
      ensures ok <==> && norm(handle) != "" && norm(handle) != user && norm(handle) !in blocked
                      && answer.Some? && answer.value != []
      ensures trace == old(trace) + if ok then Seen(norm(handle), answer.value) else []
      ensures contacts == if ok then old(contacts)[norm(handle) := answer.value] else old(contacts)
      ensures !ok ==> pins == old(pins)
      ensures var h := norm(handle);
              ok && h in old(pins) && old(pins)[h].fp != CardsFingerprint(codec, answer.value) ==>
                h in pins && !pins[h].ok
    {
      var h := norm(handle);
      if h == "" || h == user || h in blocked { return false; }
      if answer.None? || answer.value == [] { return false; }
      TakeCards(h, answer.value);
      return true;
    }

    /** The card refresh inside `verifySender`, for a sender none of whose cached cards verified. It goes by
        the handle as claimed, blocked or not. */
    method RefreshSender(sender: Handle, answer: Option<seq<Card>>)
      requires Valid()
      modifies this`pins, this`contacts, this`storedPins, this`trace
      ensures Valid() && OnlyDoubts(old(pins), pins)
      ensures var taken := sender != user && answer.Some? && answer.value != [];
              && trace == old(trace) + (if taken then Seen(sender, answer.value) else [])
              && contacts == if taken then old(contacts)[sender := answer.value] else old(contacts)
      ensures Peer(sender) && answer.Some? && answer.value != [] && sender in old(pins)
              && old(pins)[sender].fp != CardsFingerprint(codec, answer.value) ==>
                sender in pins && !pins[sender].ok
    {
      if sender == user { return; }
      if answer.Some? && answer.value != [] { TakeCards(sender, answer.value); }
    }

    /** `loadContactsLocal`: every stored entry goes through the same check on its way back in. */
    method LoadContactsLocal(entries: seq<(Handle, seq<Card>)>)
      requires Valid()
      modifies this`pins, this`contacts, this`storedPins, this`trace
      ensures Valid() && OnlyDoubts(old(pins), pins)
      ensures trace == old(trace) + SeenInEntries(entries, |entries|)
      ensures contacts == ContactsAfterEntries(old(contacts), entries, |entries|)
    {
      hide Recorded, CardsFingerprint, PinsObject, Seen;
      for i := 0 to |entries|
        invariant Valid() && OnlyDoubts(old(pins), pins)
        invariant trace == old(trace) + SeenInEntries(entries, i)
        invariant contacts == ContactsAfterEntries(old(contacts), entries, i)
      {
        TakeCards(entries[i].0, entries[i].1);
      }
    }

    /** The pin half of `loadContactsFromBlob`: merge every synced pin, then save. A local fingerprint never
        gives way to a synced one. */
    method MergeBlobPins(synced: seq<(Handle, Stored)>)
      requires Valid()
      modifies this`pins, this`storedPins, this`trace
      ensures Valid() && OnlyDoubts(old(pins), pins)
      ensures trace == old(trace) + SyncedPins(synced)
      ensures forall h :: h in old(pins) ==> h in pins && pins[h].fp == old(pins)[h].fp
    {
      hide CardsFingerprint, PinsObject;
      ghost var had := contacts;
      for i := 0 to |synced|
        invariant contacts == had && codec.Valid()
        invariant trace == old(trace) + SyncedPins(synced)[..i]
        invariant forall h :: Lookup(pins, h) == Recorded(trace, h)
        invariant OnlyDoubts(old(pins), pins)
        invariant forall h :: h in old(pins) ==> h in pins && pins[h].fp == old(pins)[h].fp
      {
        var (h, s) := synced[i];
        var merged := MergeSynced(Lookup(pins, h), s);
        assert (trace + [Synced(h, s)])[..|trace|] == trace;
        trace := trace + [Synced(h, s)];
        if merged.Some? { pins := pins[h := merged.value]; }
      }
      storedPins := PinsToObject(pins);
    }

    method DeleteChat(h: Handle)
      requires Valid()
      modifies this`contacts
      ensures Valid() && contacts == old(contacts) - {h}
    {
      contacts := contacts - {h};
    }

    method Block(h: Handle)
      requires Valid()
      modifies this`contacts, this`blocked
      ensures Valid() && contacts == old(contacts) - {h} && blocked == old(blocked) + {h}
    {
      blocked := blocked + {h};
      contacts := contacts - {h};
    }

    method Unblock(h: Handle)
      requires Valid()
      modifies this`blocked
      ensures Valid() && blocked == old(blocked) - {h}
    {
      blocked := blocked - {h};
    }

    /** A new session on the same device: the contact list starts empty, the pins come from storage. */
    method Restart()
      requires Valid()
      modifies this`pins, this`contacts, this`storedPins, this`trace
      ensures Valid() && contacts == map[] && pins == old(pins) - {PROTO}
      ensures trace == old(trace) + [Restarted]
    {
      SaveLoad(pins);
      assert (trace + [Restarted])[..|trace|] == trace;
      trace := trace + [Restarted];
      pins := ParsePins(storedPins);
      contacts := map[];
      assert PinsObject(pins) == storedPins;
    }

    // ---- sending -------------------------------------------------------------------------

    predicate IsUnverified(h: Handle)
      reads this
    {
      h in pins && !pins[h].ok
    }

    /** `unverifiedPeers(convKey).length != 0` for a conversation with these recipients. */
    predicate Held(handles: seq<Handle>)
      reads this
    {
      exists i :: 0 <= i < |handles| && Peer(handles[i]) && IsUnverified(handles[i])
    }

    /** Every card goes to a peer whose current card set carries a trusted pin. */
    ghost predicate Vouched(e: Emission)
      requires codec.Valid()
      reads this
    {
      Peer(e.to) ==>
        && e.to in contacts && e.card in contacts[e.to]
        && e.to in pins && pins[e.to] == Pin(CardsFingerprint(codec, contacts[e.to]), true)
    }

    /**
     The uninterrupted second half of `fanOutConv`: refuse if any recipient is unverified, else send
     every recipient every card on record. `up` says which sends the transport takes.
     */
    method Emit(handles: seq<Handle>, up: Card -> bool) returns (sent: seq<Emission>, ok: bool, held: bool)
      requires Valid()
      ensures held <==> exists h :: h in handles && h != "" && h != user && h in pins && !pins[h].ok
      ensures held ==> sent == [] && !ok
      ensures ok <==> exists e :: e in sent && up(e.card)
      ensures !held ==> forall h, c :: Emission(h, c) in sent <==> h in handles && h in contacts && c in contacts[h]
      ensures forall e :: e in sent ==> Vouched(e)
    {
      hide Recorded, PinsObject, CardsFingerprint;
      sent, ok := [], false;
      held := Held(handles);
      if held { return; }
      for i := 0 to |handles|
        invariant ok <==> exists e :: e in sent && up(e.card)
        invariant forall h, c :: Emission(h, c) in sent <==> h in handles[..i] && h in contacts && c in contacts[h]
      {
        var h := handles[i];
        assert handles[..i+1] == handles[..i] + [h];
        if h in contacts {
          ghost var before := sent;
          var cards := contacts[h];
          for j := 0 to |cards|
            invariant ok <==> exists e :: e in sent && up(e.card)
            invariant forall k, c :: Emission(k, c) in sent <==>
                        Emission(k, c) in before || (k == h && c in cards[..j])
          {
            assert cards[..j+1] == cards[..j] + [cards[j]];
            sent := sent + [Emission(h, cards[j])];
            if up(cards[j]) { ok := true; }
          }
          assert cards[..|cards|] == cards;
        }
      }
      assert handles[..|handles|] == handles;
      forall e | e in sent ensures Vouched(e) {
        assert Emission(e.to, e.card) in sent;
        if Peer(e.to) {
          var i :| 0 <= i < |handles| && handles[i] == e.to;
          assert !IsUnverified(handles[i]);
        }
      }
    }

    /** The fingerprint the server now answers for recipient i differs from the one on record. */
    ghost predicate Swapped(pins0: map<Handle, Pin>, handles: seq<Handle>, answers: seq<Option<seq<Card>>>, i: nat)
      requires codec.Valid() && i < |handles| == |answers|
      reads this`blocked
    {
      var h := handles[i];
      && norm(h) == h && Peer(h) && h !in blocked && h in pins0
      && answers[i].Some? && answers[i].value != [] && CardsFingerprint(codec, answers[i].value) != pins0[h].fp
    }

    /** The server now answers with other signing keys than those on record for recipient i. */
    ghost predicate OtherKeys(had: map<Handle, seq<Card>>, handles: seq<Handle>, answers: seq<Option<seq<Card>>>,
                              i: nat)
      requires codec.Valid() && i < |handles| == |answers|
      reads this`blocked
    {
      var h := handles[i];
      && norm(h) == h && h != "" && h != user && h !in blocked && h in had && had[h] != []
      && answers[i].Some? && answers[i].value != []
      && multiset(SignsOf(answers[i].value)) != multiset(SignsOf(had[h]))
      && ToldApart(codec, SignsOf(answers[i].value), SignsOf(had[h]))
    }

    lemma OtherKeysSwap(handles: seq<Handle>, answers: seq<Option<seq<Card>>>, i: nat)
      requires Valid() && i < |handles| == |answers| && OtherKeys(contacts, handles, answers, i)
      ensures Swapped(pins, handles, answers, i)
    {
      CardsFingerprintExact(codec, answers[i].value, contacts[handles[i]]);
    }

    /** The first half of `fanOutConv`: look every recipient up, one after the other. */
    method RefreshAll(handles: seq<Handle>, answers: seq<Option<seq<Card>>>)
      requires Valid() && |answers| == |handles|
      modifies this`pins, this`contacts, this`storedPins, this`trace
      ensures Valid() && OnlyDoubts(old(pins), pins)
      ensures trace == old(trace) + SeenInAnswers(blocked, handles, answers, |handles|)
      ensures contacts == ContactsAfterAnswers(old(contacts), blocked, handles, answers, |handles|)
      ensures forall i :: 0 <= i < |handles| && Swapped(old(pins), handles, answers, i) ==> IsUnverified(handles[i])
    {
      hide Recorded, CardsFingerprint, PinsObject, Seen, SeenInAnswers, ContactsAfterAnswers;
      assert SeenInAnswers(blocked, handles, answers, 0) == []
             && ContactsAfterAnswers(contacts, blocked, handles, answers, 0) == contacts by {
        NoAnswers(contacts, blocked, handles, answers);
      }
      for i := 0 to |handles|
        invariant Valid() && OnlyDoubts(old(pins), pins)
        invariant trace == old(trace) + SeenInAnswers(blocked, handles, answers, i)
        invariant contacts == ContactsAfterAnswers(old(contacts), blocked, handles, answers, i)
        invariant forall k :: 0 <= k < i && Swapped(old(pins), handles, answers, k) ==> IsUnverified(handles[k])
      {
        NextAnswer(old(contacts), blocked, handles, answers, i);
        var _ := FetchBundle(handles[i], answers[i]);
      }
    }

    lemma NoAnswers(had: map<Handle, seq<Card>>, blockedNow: set<Handle>, handles: seq<Handle>,
                    answers: seq<Option<seq<Card>>>)
      requires codec.Valid() && |handles| == |answers|
      ensures SeenInAnswers(blockedNow, handles, answers, 0) == []
      ensures ContactsAfterAnswers(had, blockedNow, handles, answers, 0) == had
    {}

    lemma NextAnswer(had: map<Handle, seq<Card>>, blockedNow: set<Handle>, handles: seq<Handle>,
                     answers: seq<Option<seq<Card>>>, n: nat)
      requires codec.Valid() && n < |handles| == |answers|
      ensures var h, answer := norm(handles[n]), answers[n];
              var usable := h != "" && h != user && h !in blockedNow && answer.Some? && answer.value != [];
              && SeenInAnswers(blockedNow, handles, answers, n + 1)
                 == SeenInAnswers(blockedNow, handles, answers, n) + (if usable then Seen(h, answer.value) else [])
              && var before := ContactsAfterAnswers(had, blockedNow, handles, answers, n);
                 ContactsAfterAnswers(had, blockedNow, handles, answers, n + 1)
                 == if usable then before[h := answer.value] else before
    {
      hide Seen;
    }

    /**
     `fanOutConv`: refresh every recipient first, then send or refuse. It refuses exactly when a pin is
     untrusted after the refresh, which a swap the refresh brings in makes it; otherwise every card on
     record goes out, each vouched for by a trusted pin.
     */
    method FanOut(handles: seq<Handle>, answers: seq<Option<seq<Card>>>, up: Card -> bool)
      returns (sent: seq<Emission>, ok: bool, held: bool)
      requires Valid() && |answers| == |handles|
      modifies this`pins, this`contacts, this`storedPins, this`trace
      ensures Valid() && OnlyDoubts(old(pins), pins)
      ensures trace == old(trace) + SeenInAnswers(blocked, handles, answers, |handles|)
      ensures contacts == ContactsAfterAnswers(old(contacts), blocked, handles, answers, |handles|)
      ensures (exists i :: 0 <= i < |handles| && Swapped(old(pins), handles, answers, i)) ==> held
      ensures (exists i :: 0 <= i < |handles| && OtherKeys(old(contacts), handles, answers, i)) ==> held
      ensures held <==> exists h :: h in handles && h != "" && h != user && h in pins && !pins[h].ok
      ensures held ==> sent == [] && !ok
      ensures ok <==> exists e :: e in sent && up(e.card)
      ensures !held ==> forall h, c :: Emission(h, c) in sent <==> h in handles && h in contacts && c in contacts[h]
      ensures forall e :: e in sent ==> Vouched(e)
    {
      hide Recorded, CardsFingerprint, PinsObject, Seen, OnlyDoubts, Vouched, SeenInAnswers;
      hide ContactsAfterAnswers, OtherKeys;
      forall i | 0 <= i < |handles| && OtherKeys(contacts, handles, answers, i)
        ensures Swapped(pins, handles, answers, i)
      {
        OtherKeysSwap(handles, answers, i);
      }
      RefreshAll(handles, answers);
      sent, ok, held := Emit(handles, up);
    }

    /**
     The whole promise for one emission: its card set's fingerprint was the first recorded for the
     recipient or the one the user last confirmed, and nothing observed since contradicts it.
     */
    lemma VouchedMeans(e: Emission)
      requires Valid() && Vouched(e) && Peer(e.to) && e.to != PROTO
      ensures e.card in contacts[e.to]
      ensures exists i :: 0 <= i < |trace| && TrustedSince(trace, e.to, CardsFingerprint(codec, contacts[e.to]), i)
    {
      TrustedPinMeans(e.to, CardsFingerprint(codec, contacts[e.to]));
    }

    lemma TrustedPinMeans(h: Handle, fp: string)
      requires Valid() && h != PROTO && Lookup(pins, h) == Some(Pin(fp, true))
      ensures exists i :: 0 <= i < |trace| && TrustedSince(trace, h, fp, i)
    {
      assert Recorded(trace, h) == Lookup(pins, h);
      TrustMeans(trace, h, fp);
    }

    // ---- receiving -----------------------------------------------------------------------

    /** The cards a claimed sender is checked against; `mine` are those of our own devices. */
    function CardsOf(sender: Handle, mine: seq<Card>): seq<Card>
      reads this
    {
      if sender == user then mine else if sender in contacts then contacts[sender] else []
    }

    predicate Signs(cards: seq<Card>, verify: SignKey -> bool) {
      exists c :: c in cards && verify(c.sign)
    }

    /** `verifySender`: cards on record first, and only if none of them verifies the one refresh. `mineNow` are
        our own cards after reloading them. */
    method VerifySender(sender: Handle, verify: SignKey -> bool, mine: seq<Card>, mineNow: seq<Card>,
                        answer: Option<seq<Card>>) returns (ok: bool)
      requires Valid()
      modifies this`pins, this`contacts, this`storedPins, this`trace
      ensures Valid() && OnlyDoubts(old(pins), pins)
      ensures Signs(old(CardsOf(sender, mine)), verify) ==>
                ok && pins == old(pins) && contacts == old(contacts) && trace == old(trace)
      ensures !Signs(old(CardsOf(sender, mine)), verify) ==>
                (ok <==> exists c :: c in CardsOf(sender, mineNow) && verify(c.sign))
      ensures !Signs(old(CardsOf(sender, mine)), verify) ==>
                var taken := sender != user && answer.Some? && answer.value != [];
                && trace == old(trace) + (if taken then Seen(sender, answer.value) else [])
                && contacts == if taken then old(contacts)[sender := answer.value] else old(contacts)
      ensures !Signs(old(CardsOf(sender, mine)), verify) && Peer(sender) && answer.Some? && answer.value != []
              && sender in old(pins) && old(pins)[sender].fp != CardsFingerprint(codec, answer.value) ==>
                sender in pins && !pins[sender].ok
    {
      hide Recorded, CardsFingerprint, PinsObject, Seen;
      if Signs(CardsOf(sender, mine), verify) { return true; }
      RefreshSender(sender, answer);
      return Signs(CardsOf(sender, mineNow), verify);
    }

    /**
     How `onDeliver` treats what a message claims about its sender, for any claim: dropped unless some card
     of that sender verifies it; and a peer's message goes unflagged only under a trusted pin on the very
     card set that verified it.
     */
    method Attribute(sender: Handle, verify: SignKey -> bool, mine: seq<Card>, mineNow: seq<Card>,
                     answer: Option<seq<Card>>) returns (v: Verdict)
      requires Valid()
      modifies this`pins, this`contacts, this`storedPins, this`trace
      ensures Valid() && OnlyDoubts(old(pins), pins)
      ensures v == Dropped
         <==> || sender == "" || (sender != user && sender in blocked)
              || !((exists c :: c in old(CardsOf(sender, mine)) && verify(c.sign))
                   || exists c :: c in CardsOf(sender, mineNow) && verify(c.sign))
      ensures v != Dropped ==> (v.FromPeer? <==> sender != user)
      ensures v == FromSelf ==> exists c :: (c in mine || c in mineNow) && verify(c.sign)
      ensures v.FromPeer? ==> sender in contacts && exists c :: c in contacts[sender] && verify(c.sign)
      ensures v == FromPeer(false) ==>
                sender in pins && pins[sender] == Pin(CardsFingerprint(codec, contacts[sender]), true)
      ensures v == FromPeer(true) ==> sender in pins && !pins[sender].ok
    {
      hide Recorded, CardsFingerprint, PinsObject, Seen;
      if sender == "" { return Dropped; }
      var ok := VerifySender(sender, verify, mine, mineNow, answer);
      if !ok { return Dropped; }
      if sender != user && sender in blocked { return Dropped; }
      v := if sender == user then FromSelf else FromPeer(IsUnverified(sender));
    }
  }
}
