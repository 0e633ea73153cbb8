/** Runs of the stack and the background loops that share its keys: any interleaving of encryptions, key
    switches, key installations and key updates, without reloading counters from storage. */
module NonceRuns {
  import opened Wrappers
  import opened AuxHeader
  import opened SecuredFrames
  import NwkFrames
  import NwkSecurity
  import ApsFrames
  import ApsSecurity
  import AesMmo

  /** One sealed frame: which descriptor sealed it, under which key and auxiliary header. */
  datatype Emission = Emission(index: nat, key: Key, aux: Aux)

  /** Every frame has an address and a counter below its descriptor's, and the counters of one
      descriptor go up. */
  ghost predicate Fresh(log: seq<Emission>, counters: seq<bv32>) {
    && (forall j :: 0 <= j < |log| ==>
          log[j].aux.source.Some? && log[j].index < |counters| && Below(log[j].aux.counter, counters[log[j].index]))
    && (forall j, k :: 0 <= j < k < |log| && log[j].index == log[k].index ==>
          Below(log[j].aux.counter, log[k].aux.counter))
  }

  /** No descriptor seals two frames under the same nonce. */
  ghost predicate NoRepeat(log: seq<Emission>) {
    forall j, k :: 0 <= j < k < |log| && log[j].index == log[k].index ==> Nonce(log[j].aux) != Nonce(log[k].aux)
  }

  lemma EmitKeepsFresh(log: seq<Emission>, counters: seq<bv32>, e: Emission)
    requires Fresh(log, counters) && e.index < |counters| && e.aux.source.Some?
    requires e.aux.counter == counters[e.index] != MAX_COUNTER
    ensures Fresh(log + [e], counters[e.index := Successor(counters[e.index])])
  {
    hide Below, Successor;
    var next := counters[e.index := Successor(counters[e.index])];
    BelowSuccessor(e.aux.counter, e.aux.counter);
    forall j | 0 <= j < |log| ensures Below(log[j].aux.counter, next[log[j].index]) {
      BelowSuccessor(log[j].aux.counter, counters[e.index]);
    }
  }

  lemma FreshNeverRepeats(log: seq<Emission>, counters: seq<bv32>)
    requires Fresh(log, counters)
    ensures NoRepeat(log)
  {
    hide Nonce;
    forall j, k | 0 <= j < k < |log| && log[j].index == log[k].index ensures Nonce(log[j].aux) != Nonce(log[k].aux) {
      if Nonce(log[j].aux) == Nonce(log[k].aux) {
        NonceIsInjective(log[j].aux, log[k].aux);
        BelowSuccessor(log[j].aux.counter, log[k].aux.counter);
      }
    }
  }

  // ----- the network layer --------------------------------------------------------------------

  datatype NwkState = NwkState(keys: seq<NwkSecurity.Descriptor>, active: bv8, log: seq<Emission>)

  /** Any party encrypts a frame, the active key is switched, or a key is installed with a counter
      of zero (the set holds four; further keys are dropped). */
  datatype NwkEvent =
    | Encrypt(frame: NwkFrames.Frame, level: SecurityLevel, address: bv64, room: nat)
    | Switch(sequence: bv8)
    | Install(sequence: bv8, key: Key)

  const MAX_KEYS: nat := 4

  function NwkStep(s: NwkState, e: NwkEvent): NwkState {
    match e
    case Encrypt(f, level, address, room) =>
      var i := NwkSecurity.FindKey(s.keys, s.active);
      if i.None? || s.keys[i.value].outgoing == MAX_COUNTER || f.BareFrame? then s
      else
        var d := s.keys[i.value];
        var aux := NwkSecurity.OutgoingAux(d, level, address);
        if FrameLength(level, NwkFrames.HeaderOctets(f.header), aux, NwkFrames.Body(f)) > room then s
        else NwkState(NwkSecurity.Used(s.keys, i.value), s.active, s.log + [Emission(i.value, d.key, aux)])
    case Switch(sequence) => s.(active := sequence)
    case Install(sequence, key) =>
      if |s.keys| >= MAX_KEYS then s else s.(keys := s.keys + [NwkSecurity.Descriptor(sequence, 0, [], key)])
  }

  function NwkRun(s: NwkState, events: seq<NwkEvent>): NwkState {
    if events == [] then s else NwkStep(NwkRun(s, events[..|events| - 1]), events[|events| - 1])
  }

  /** The encryption of the source takes this step, and seals the frame under the header and key
      it logs. */
  method EncryptStep(store: NwkSecurity.KeyStore, ghost log: seq<Emission>, c: Cipher, f: NwkFrames.Frame,
                     buf: array<bv8>, address: bv64, level: SecurityLevel)
    returns (r: Result<nat>)
    requires Lawful(c)
    modifies store`keys, buf
    ensures var before := NwkState(old(store.keys), store.active, log);
            var after := NwkStep(before, Encrypt(f, level, address, buf.Length));
            && store.keys == after.keys
            && if r.Ok? then
                 && |after.log| == |log| + 1
                 && var e := after.log[|log|];
                    && FrameLength(level, NwkFrames.HeaderOctets(f.header), e.aux, NwkFrames.Body(f)) == r.value
                    && r.value <= buf.Length
                    && e.aux.source.Some?
                    && buf[..r.value] == SealedOver(old(buf[..]), c, level, e.key, e.aux,
                                                    NwkFrames.HeaderOctets(f.header), 2, NwkFrames.Body(f))
               else after.log == log
  {
    hide Lawful, SealedOver, AuxOctets, NwkFrames.HeaderOctets, NwkSecurity.FindKey, MicLength;
    r := store.MakeEncryptedFrame(c, f, buf, address, level);
  }

  /** The other events: a switch names another key, and a key is installed behind those there are, with
      its counter at zero and no counters of others, if they are fewer than four. */
  lemma OtherEvents(s: NwkState, sequence: bv8, key: Key)
    ensures NwkStep(s, Switch(sequence)) == NwkState(s.keys, sequence, s.log)
    ensures NwkStep(s, Install(sequence, key))
            == if |s.keys| < 4 then NwkState(s.keys + [NwkSecurity.Descriptor(sequence, 0, [], key)], s.active, s.log)
               else s
  {
  }

  function Counters(keys: seq<NwkSecurity.Descriptor>): (r: seq<bv32>)
    ensures |r| == |keys|
  {
    seq(|keys|, i requires 0 <= i < |keys| => keys[i].outgoing)
  }

  /** The log is fresh, every frame was sealed under its descriptor's key, and by the first
      descriptor with its sequence number. */
  ghost predicate NwkInvariant(s: NwkState) {
    && Fresh(s.log, Counters(s.keys))
    && (forall j :: 0 <= j < |s.log| ==> s.log[j].index < |s.keys|)
    && forall j :: 0 <= j < |s.log| ==>
         && s.log[j].key == s.keys[s.log[j].index].key
         && First(s.keys, s.log[j].index)
  }

  predicate First(keys: seq<NwkSecurity.Descriptor>, i: nat)
    requires i < |keys|
  {
    forall j :: 0 <= j < i ==> keys[j].sequence != keys[i].sequence
  }

  lemma InstallKeepsFresh(log: seq<Emission>, counters: seq<bv32>, longer: seq<bv32>)
    requires Fresh(log, counters) && |counters| <= |longer|
    requires forall i :: 0 <= i < |counters| ==> longer[i] == counters[i]
    ensures Fresh(log, longer)
  {
    hide Below;
  }

  lemma NwkStepKeepsInvariant(s: NwkState, e: NwkEvent)
    requires NwkInvariant(s)
    ensures NwkInvariant(NwkStep(s, e))
  {
    hide NwkInvariant, NwkSecurity.FindKey, FrameLength, NwkFrames.HeaderOctets, NwkFrames.Body, NwkSecurity.Used;
    var s' := NwkStep(s, e);
    match e
    case Encrypt(f, level, address, room) =>
      if |s'.log| > |s.log| {
        var i := NwkSecurity.FindKey(s.keys, s.active).value;
        UseKeepsInvariant(s, i, s'.log[|s.log|]);
      }
    case Switch(sequence) => SwitchKeepsInvariant(s, sequence);
    case Install(sequence, key) =>
      if |s.keys| < MAX_KEYS {
        InstallKeepsInvariant(s, NwkSecurity.Descriptor(sequence, 0, [], key));
      }
  }

  lemma UseKeepsInvariant(s: NwkState, i: nat, e: Emission)
    requires NwkInvariant(s) && i < |s.keys| && s.keys[i].outgoing != MAX_COUNTER && First(s.keys, i)
    requires e.index == i && e.key == s.keys[i].key && e.aux.source.Some? && e.aux.counter == s.keys[i].outgoing
    ensures NwkInvariant(NwkState(NwkSecurity.Used(s.keys, i), s.active, s.log + [e]))
  {
    hide Fresh, Below, Successor;
    var used := NwkSecurity.Used(s.keys, i);
    EmitKeepsFresh(s.log, Counters(s.keys), e);
    assert Counters(used) == Counters(s.keys)[i := Successor(s.keys[i].outgoing)];
    assert forall j :: 0 <= j < |used| ==> used[j].sequence == s.keys[j].sequence && used[j].key == s.keys[j].key;
  }

  lemma SwitchKeepsInvariant(s: NwkState, sequence: bv8)
    requires NwkInvariant(s)
    ensures NwkInvariant(s.(active := sequence))
  {
    hide Fresh, First;
  }

  lemma InstallKeepsInvariant(s: NwkState, d: NwkSecurity.Descriptor)
    requires NwkInvariant(s)
    ensures NwkInvariant(s.(keys := s.keys + [d]))
  {
    hide Fresh;
    InstallKeepsFresh(s.log, Counters(s.keys), Counters(s.keys + [d]));
    forall j | 0 <= j < |s.log| ensures First(s.keys + [d], s.log[j].index) {
      assert First(s.keys, s.log[j].index);
    }
  }

  lemma {:induction false} NwkRunKeepsInvariant(s: NwkState, events: seq<NwkEvent>)
    requires NwkInvariant(s)
    ensures NwkInvariant(NwkRun(s, events))
  {
    hide NwkStep, NwkInvariant;
    if events != [] {
      NwkRunKeepsInvariant(s, events[..|events| - 1]);
      NwkStepKeepsInvariant(NwkRun(s, events[..|events| - 1]), events[|events| - 1]);
    }
  }

  /** A key is known under one sequence number only; it may be installed again under it. */
  ghost predicate KeysNamedOnce(keys: seq<NwkSecurity.Descriptor>) {
    forall i, j :: 0 <= i < |keys| && 0 <= j < |keys| && keys[i].key == keys[j].key ==>
      keys[i].sequence == keys[j].sequence
  }

  /** In every run no descriptor repeats a nonce, and if keys are named once no key does. */
  lemma NwkNoncesNeverRepeat(s: NwkState, events: seq<NwkEvent>)
    requires s.log == []
    ensures var log, keys := NwkRun(s, events).log, NwkRun(s, events).keys;
            && NoRepeat(log)
            && (KeysNamedOnce(keys) ==>
                  forall j, k :: 0 <= j < k < |log| && log[j].key == log[k].key ==>
                    Nonce(log[j].aux) != Nonce(log[k].aux))
  {
    hide NwkStep, Nonce;
    NwkRunKeepsInvariant(s, events);
    var log, keys := NwkRun(s, events).log, NwkRun(s, events).keys;
    FreshNeverRepeats(log, Counters(keys));
    if KeysNamedOnce(keys) {
      forall j, k | 0 <= j < k < |log| && log[j].key == log[k].key ensures Nonce(log[j].aux) != Nonce(log[k].aux) {
        FirstIsUnique(keys, log[j].index, log[k].index);
      }
    }
  }

  lemma FirstIsUnique(keys: seq<NwkSecurity.Descriptor>, i: nat, j: nat)
    requires i < |keys| && j < |keys| && First(keys, i) && First(keys, j) && keys[i].sequence == keys[j].sequence
    ensures i == j
  {
  }

  lemma NothingRun(s: NwkState)
    ensures NwkRun(s, []) == s
  {
  }

  lemma RunStep(s: NwkState, events: seq<NwkEvent>, e: NwkEvent)
    ensures NwkRun(s, events + [e]) == NwkStep(NwkRun(s, events), e)
  {
    assert (events + [e])[..|events|] == events;
  }

  /** Keys must be named once: installing a key under a second sequence number starts its counter
      anew, and the same nonce is used with it again. */
  lemma RenamedKeyRepeatsNonce(key: Key, f: NwkFrames.Frame, level: SecurityLevel, address: bv64, room: nat)
    requires !f.BareFrame?
    requires forall sequence :: FrameLength(level, NwkFrames.HeaderOctets(f.header),
                                            Aux(Control(level, NetworkKey, true), 0, Some(address), Some(sequence)),
                                            NwkFrames.Body(f)) <= room
    ensures var send := Encrypt(f, level, address, room);
            var log := NwkRun(NwkState([], 0, []), [Install(0, key), send, Install(1, key), Switch(1), send]).log;
            |log| == 2 && log[0].key == log[1].key && Nonce(log[0].aux) == Nonce(log[1].aux)
  {
    hide FrameLength, Successor, NwkSecurity.FindKey, NwkFrames.HeaderOctets, NwkFrames.Body, NwkRun;
    var send := Encrypt(f, level, address, room);
    var s0 := NwkState([], 0, []);
    var first := NwkSecurity.Descriptor(0, 0, [], key);
    var second := NwkSecurity.Descriptor(1, 0, [], key);
    var events := [Install(0, key), send, Install(1, key), Switch(1), send];
    assert events == [] + [Install(0, key)] + [send] + [Install(1, key)] + [Switch(1)] + [send];
    NothingRun(s0);
    RunStep(s0, [], Install(0, key));
    RunStep(s0, [] + [Install(0, key)], send);
    RunStep(s0, [] + [Install(0, key)] + [send], Install(1, key));
    RunStep(s0, [] + [Install(0, key)] + [send] + [Install(1, key)], Switch(1));
    RunStep(s0, [] + [Install(0, key)] + [send] + [Install(1, key)] + [Switch(1)], send);
    var s1 := NwkStep(s0, Install(0, key));
    var s2 := NwkStep(s1, send);
    var s4 := NwkStep(NwkStep(s2, Install(1, key)), Switch(1));
    assert NwkSecurity.FindKey(s1.keys, 0) == Some(0) && s1.keys[0] == first;
    assert |s2.log| == 1 && |s2.keys| == 1 && s2.keys[0].sequence == 0;
    assert s4.keys == [s2.keys[0], second] && s4.active == 1;
    assert s4.keys[0].sequence == 0 && s4.keys[1].sequence == 1;
    assert NwkSecurity.FindKey(s4.keys, 1) == Some(1);
  }

  // ----- the application support layer --------------------------------------------------------

  datatype ApsState = ApsState(pairs: seq<ApsSecurity.KeyPair>, log: seq<Emission>)

  /** A frame is encrypted, or a pair is given another key, address, attribute, type or incoming
      counter; none of these touches its outgoing counter. */
  datatype ApsEvent =
    | ApsEncrypt(frame: ApsFrames.Frame, destination: bv64, extended: bool, level: SecurityLevel, address: bv64,
                 room: nat)
    | Update(index: nat, pair: ApsSecurity.KeyPair)

  function ApsStep(s: ApsState, e: ApsEvent): ApsState {
    match e
    case ApsEncrypt(f, destination, extended, level, address, room) =>
      var i := ApsSecurity.FindPair(s.pairs, destination, 0);
      if i.None? || ApsSecurity.Refusal(s.pairs[i.value], f, level, extended, room).Some? then s
      else
        var p := s.pairs[i.value];
        ApsState(ApsSecurity.Used(s.pairs, i.value),
                 s.log + [Emission(i.value, p.key, ApsSecurity.OutgoingAux(p, level, f, true, address))])
    case Update(i, pair) =>
      if i >= |s.pairs| then s else s.(pairs := s.pairs[i := pair.(outgoing := s.pairs[i].outgoing)])
  }

  /** The encryption of the source takes this step, and seals the frame under the pair it logs. */
  method ApsEncryptStep(keys: ApsSecurity.LinkKeys, ghost log: seq<Emission>, c: Cipher, encrypt: AesMmo.BlockCipher,
                        f: ApsFrames.Frame, destination: bv64, extended: bool, buf: array<bv8>, address: bv64,
                        level: SecurityLevel)
    returns (r: Result<nat>)
    requires Lawful(c)
    modifies keys`pairs, buf
    ensures var before := ApsState(old(keys.pairs), log);
            var after := ApsStep(before, ApsEncrypt(f, destination, extended, level, address, buf.Length));
            && keys.pairs == after.pairs
            && if r.Ok? then
                 && |after.log| == |log| + 1 && r.value <= buf.Length
                 && var e := after.log[|log|];
                    && e.index < |before.pairs| && e.aux.source == Some(address)
                    && e.key == before.pairs[e.index].key && e.aux.counter == before.pairs[e.index].outgoing
                    && ApsSecurity.SentSecurely(buf[..r.value], old(buf[..]), c, encrypt, level, before.pairs[e.index],
                                                address, f)
               else after.log == log
  {
    hide Lawful, ApsSecurity.FindPair, ApsSecurity.Refusal, ApsSecurity.Used, ApsSecurity.SentSecurely;
    hide ApsSecurity.AnswersEncrypt, ApsSecurity.LeftInBuffer, ApsSecurity.CountedUp;
    r := keys.EncryptApsFrame(c, encrypt, f, destination, extended, buf, address, level);
  }

  function ApsRun(s: ApsState, events: seq<ApsEvent>): ApsState {
    if events == [] then s else ApsStep(ApsRun(s, events[..|events| - 1]), events[|events| - 1])
  }

  function PairCounters(pairs: seq<ApsSecurity.KeyPair>): (r: seq<bv32>)
    ensures |r| == |pairs|
  {
    seq(|pairs|, i requires 0 <= i < |pairs| => pairs[i].outgoing)
  }

  lemma ApsStepKeepsFresh(s: ApsState, e: ApsEvent)
    requires Fresh(s.log, PairCounters(s.pairs))
    ensures var t := ApsStep(s, e); Fresh(t.log, PairCounters(t.pairs))
  {
    hide ApsSecurity.FindPair, ApsSecurity.Usable, ApsSecurity.Refusal, Fresh, Below, Successor;
    var t := ApsStep(s, e);
    if |t.log| > |s.log| {
      EmitKeepsFresh(s.log, PairCounters(s.pairs), t.log[|s.log|]);
      var i := t.log[|s.log|].index;
      assert PairCounters(t.pairs) == PairCounters(s.pairs)[i := Successor(s.pairs[i].outgoing)];
    } else {
      assert PairCounters(t.pairs) == PairCounters(s.pairs);
    }
  }

  /** In every run no key pair repeats a nonce, whatever its key, and its counter stays in step. */
  lemma {:induction false} ApsNoncesNeverRepeat(s: ApsState, events: seq<ApsEvent>)
    requires s.log == []
    ensures Fresh(ApsRun(s, events).log, PairCounters(ApsRun(s, events).pairs)) && NoRepeat(ApsRun(s, events).log)
  {
    hide ApsStep, NoRepeat;
    if events != [] {
      ApsNoncesNeverRepeat(s, events[..|events| - 1]);
      ApsStepKeepsFresh(ApsRun(s, events[..|events| - 1]), events[|events| - 1]);
    }
    FreshNeverRepeats(ApsRun(s, events).log, PairCounters(ApsRun(s, events).pairs));
  }
}
