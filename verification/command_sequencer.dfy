/** The advertisement callback: on the Grassy Core's advertisement it stops
    the scan, connects, looks up the service and characteristic, and writes
    the set-time frame followed by the configuration frame.  The BLE stack and
    the NTP client appear only through the answers they give. */
module CommandSequencer {
  import opened Optional
  import opened CommandCodec
  import opened TimeOfDay
  import opened DeviceMatcher

  datatype Advertisement = Advertisement(name: string)

  /** The remote characteristic, known by whether it accepts writes. */
  datatype Characteristic = Characteristic(canWrite: bool)

  /** A found service and the answer to its characteristic lookup. */
  datatype RemoteService = RemoteService(characteristic: Option<Characteristic>)

  /** What the connected peripheral and the NTP client answer: the service
      lookup (None when the peripheral lacks the service) and the epoch
      seconds the NTP client reports. */
  datatype Peer = Peer(service: Option<RemoteService>, epoch: nat)

  /** The program's global BLE state: whether the scan still delivers
      advertisements, whether the client has asked for a connection (the
      program ignores whether it succeeded), and the global characteristic
      handle (None while it is a null pointer). */
  datatype Client = Client(scanning: bool, connectRequested: bool, characteristic: Option<Characteristic>)

  /** The state when the scan starts. */
  const Initial: Client := Client(true, false, None)

  /** Which branch one callback took. */
  datatype Branch = NotTarget | ServiceNotFound | NotWritable | CommandsSent

  /** One callback: the state after it, the branch taken, the frames written in order. */
  datatype Step = Step(client: Client, branch: Branch, writes: seq<Frame>)

  /** Writes the set-time frame through the handle, or nothing through a null handle. */
  function SendSetTimeCommand(handle: Option<Characteristic>, hour: Byte, minute: Byte, second: Byte): (w: seq<Frame>)
    ensures handle.None? ==> w == []
    ensures handle.Some? ==> |w| == 1 && Decode(w[0]) == Some(SetTime(hour, minute, second))
  {
    if handle.None? then []
    else
      DecodeEncode(SetTime(hour, minute, second));
      [Encode(SetTime(hour, minute, second))]
  }

  /** Writes the configuration frame through the handle, or nothing through a null handle. */
  function SendFixedCommand(handle: Option<Characteristic>): (w: seq<Frame>)
    ensures handle.None? ==> w == []
    ensures handle.Some? ==> w == [[0x80, 0x31, 0x01, 0x00, 0x00, 0x3B, 0x00, 0x00, 0x01, 0x00, 0x00, 0x6E, 0x01, 0x00]]
  {
    if handle.None? then [] else [Encode(FixedConfig)]
  }

  /** The set-time command for an epoch value: the display-zone clock, each
      field narrowed to `uint8_t`. */
  function TimeCommand(epoch: nat): (c: Command)
    ensures c.SetTime?
    ensures var t := LocalClock(epoch); c.hour == t.hour && c.minute == t.minute && c.second == t.second
  {
    var t := LocalClock(epoch);
    NarrowKeepsClock(t);
    SetTime(Narrow(t.hour), Narrow(t.minute), Narrow(t.second))
  }

  /** The two frames a successful callback writes. */
  function SuccessWrites(epoch: nat): seq<Frame> {
    [Encode(TimeCommand(epoch)), Encode(FixedConfig)]
  }

  /** The program dereferences the looked-up characteristic without a null
      check, so a found service must yield a characteristic. */
  predicate CharacteristicResolved(peer: Peer) {
    peer.service.Some? ==> peer.service.value.characteristic.Some?
  }

  /** One advertisement callback. */
  function OnResult(c: Client, adv: Advertisement, peer: Peer): (s: Step)
    requires Matches(adv.name) ==> CharacteristicResolved(peer)
    ensures s.branch == NotTarget <==> !Matches(adv.name)
    ensures s.branch == ServiceNotFound <==> Matches(adv.name) && peer.service.None?
    ensures s.branch == NotWritable <==>
      Matches(adv.name) && peer.service.Some? && !peer.service.value.characteristic.value.canWrite
    ensures s.branch == CommandsSent <==>
      Matches(adv.name) && peer.service.Some? && peer.service.value.characteristic.value.canWrite
    ensures s.branch == NotTarget ==> s.client == c
    ensures s.branch != NotTarget ==> !s.client.scanning && s.client.connectRequested
    ensures s.branch == ServiceNotFound ==> s.client.characteristic == c.characteristic
    ensures s.branch in {NotWritable, CommandsSent} ==>
      peer.service.Some? && s.client.characteristic == peer.service.value.characteristic
    ensures s.writes != [] <==> s.branch == CommandsSent
    ensures s.branch == CommandsSent ==> s.writes == SuccessWrites(peer.epoch)
  {
    if !Matches(adv.name) then
      Step(c, NotTarget, [])
    else
      var linked := c.(scanning := false, connectRequested := true);
      match peer.service
      case None =>
        Step(linked, ServiceNotFound, [])
      case Some(service) =>
        var handled := linked.(characteristic := service.characteristic);
        if !service.characteristic.value.canWrite then
          Step(handled, NotWritable, [])
        else
          var cmd := TimeCommand(peer.epoch);
          var writes := SendSetTimeCommand(handled.characteristic, cmd.hour, cmd.minute, cmd.second)
                        + SendFixedCommand(handled.characteristic);
          Step(handled, CommandsSent, writes)
  }

  /** A peripheral without the service gets no write, and the callback takes
      the failure branch when the name matched. */
  lemma MissingServiceNoWrite(c: Client, adv: Advertisement, peer: Peer)
    requires peer.service.None?
    ensures OnResult(c, adv, peer).writes == []
    ensures Matches(adv.name) ==> OnResult(c, adv, peer).branch == ServiceNotFound
  {
  }

  /** A characteristic that refuses writes gets no write. */
  lemma NotWritableNoWrite(c: Client, adv: Advertisement, peer: Peer)
    requires peer.service.Some? && peer.service.value.characteristic.Some?
    requires !peer.service.value.characteristic.value.canWrite
    ensures OnResult(c, adv, peer).writes == []
    ensures Matches(adv.name) ==> OnResult(c, adv, peer).branch == NotWritable
  {
  }

  /** On the success path exactly two frames are written: first the set-time
      frame, which a receiver reads as the display-zone time of day of the
      epoch value, then the constant configuration frame. */
  lemma SuccessWritesTimeThenConfig(c: Client, adv: Advertisement, peer: Peer)
    requires Matches(adv.name)
    requires peer.service.Some? && peer.service.value.characteristic.Some?
    requires peer.service.value.characteristic.value.canWrite
    ensures var t := LocalClock(peer.epoch);
      OnResult(c, adv, peer).writes == [Encode(SetTime(t.hour, t.minute, t.second)), Encode(FixedConfig)]
    ensures var d := Decode(OnResult(c, adv, peer).writes[0]);
      d.Some? && d.value.SetTime?
      && Valid(Clock(d.value.hour, d.value.minute, d.value.second))
      && SecondOfDay(Clock(d.value.hour, d.value.minute, d.value.second))
         == (peer.epoch + UtcOffsetHours * SecondsPerHour) % SecondsPerDay
    ensures Decode(OnResult(c, adv, peer).writes[1]) == Some(FixedConfig)
  {
    var cmd := TimeCommand(peer.epoch);
    DecodeEncode(cmd);
    DecodeEncode(FixedConfig);
  }

  /** The configuration frame does not depend on the epoch value or the
      state: every successful callback ends with the same bytes. */
  lemma ConfigFrameIndependent(c1: Client, c2: Client, adv: Advertisement, p1: Peer, p2: Peer)
    requires Matches(adv.name) ==> CharacteristicResolved(p1) && CharacteristicResolved(p2)
    requires OnResult(c1, adv, p1).branch == CommandsSent
    requires OnResult(c2, adv, p2).branch == CommandsSent
    ensures OnResult(c1, adv, p1).writes[1] == OnResult(c2, adv, p2).writes[1]
  {
  }

  /** What a scan delivers: the final state, the branches of the callbacks
      that acted on a match, and every frame written, in order. */
  datatype ScanOutcome = ScanOutcome(client: Client, acted: seq<Branch>, writes: seq<Frame>)

  predicate ResolvedWhereMatched(ads: seq<Advertisement>, peer: Peer) {
    forall i :: 0 <= i < |ads| && Matches(ads[i].name) ==> CharacteristicResolved(peer)
  }

  /** The scan delivers each advertisement to the callback for as long as the
      scan has not been stopped. */
  function Scan(c: Client, ads: seq<Advertisement>, peer: Peer): (r: ScanOutcome)
    requires ResolvedWhereMatched(ads, peer)
    ensures !c.scanning ==> r == ScanOutcome(c, [], [])
    ensures |r.acted| <= 1
    ensures r.writes == [] || (r.writes == SuccessWrites(peer.epoch) && r.acted == [CommandsSent])
    decreases |ads|
  {
    if !c.scanning || ads == [] then
      ScanOutcome(c, [], [])
    else
      var s := OnResult(c, ads[0], peer);
      var rest := Scan(s.client, ads[1..], peer);
      var acted := if s.branch == NotTarget then rest.acted else [s.branch] + rest.acted;
      ScanOutcome(rest.client, acted, s.writes + rest.writes)
  }

  /** The position of the first advertisement naming the peripheral. */
  function FirstMatch(ads: seq<Advertisement>): (k: Option<nat>)
    ensures k.Some? ==> k.value < |ads| && Matches(ads[k.value].name)
    ensures k.Some? ==> forall j :: 0 <= j < k.value ==> !Matches(ads[j].name)
    ensures k.None? ==> forall j :: 0 <= j < |ads| ==> !Matches(ads[j].name)
  {
    if ads == [] then None
    else if Matches(ads[0].name) then Some(0)
    else match FirstMatch(ads[1..])
      case None => None
      case Some(k) => Some(k + 1)
  }

  /** Only the first matching advertisement is acted upon: the scan's writes
      and branch are those of the callback for that advertisement, and a scan
      without a match writes nothing and leaves the state unchanged. */
  lemma {:induction false} ScanActsOnFirstMatchOnly(c: Client, ads: seq<Advertisement>, peer: Peer)
    requires c.scanning
    requires ResolvedWhereMatched(ads, peer)
    ensures FirstMatch(ads).None? ==> Scan(c, ads, peer) == ScanOutcome(c, [], [])
    ensures FirstMatch(ads).Some? ==>
      var s := OnResult(c, ads[FirstMatch(ads).value], peer);
      Scan(c, ads, peer) == ScanOutcome(s.client, [s.branch], s.writes)
    decreases |ads|
  {
    if ads != [] {
      var s := OnResult(c, ads[0], peer);
      assert ResolvedWhereMatched(ads[1..], peer) by {
        forall i | 0 <= i < |ads[1..]| && Matches(ads[1..][i].name)
          ensures CharacteristicResolved(peer)
        {
          assert ads[1..][i] == ads[i + 1];
        }
      }
      if !Matches(ads[0].name) {
        ScanActsOnFirstMatchOnly(c, ads[1..], peer);
      }
    }
  }

  /** The whole run after set-up: the scan starts from the initial state. */
  function Run(ads: seq<Advertisement>, peer: Peer): (r: ScanOutcome)
    requires ResolvedWhereMatched(ads, peer)
    ensures FirstMatch(ads).None? ==> r.acted == [] && r.writes == []
    ensures FirstMatch(ads).None? ==> r.client == Initial
    ensures FirstMatch(ads).Some? ==>
      var s := OnResult(Initial, ads[FirstMatch(ads).value], peer);
      r == ScanOutcome(s.client, [s.branch], s.writes)
  {
    ScanActsOnFirstMatchOnly(Initial, ads, peer);
    Scan(Initial, ads, peer)
  }

  /** Epoch 1700000000 (22:13:20 UTC) sets the Grassy Core to 06:13:20. */
  lemma WorkedExample()
    ensures
      var peer := Peer(Some(RemoteService(Some(Characteristic(true)))), 1700000000);
      Run([Advertisement("GrassyCore"), Advertisement("GrassyCore C"), Advertisement("GrassyCore C")], peer)
        == ScanOutcome(
             Client(false, true, Some(Characteristic(true))),
             [CommandsSent],
             [[0x80, 0x31, 0x06, 0x00, 0x00, 0x06, 0x00, 0x00, 0x0D, 0x00, 0x00, 0x14, 0x00, 0x00],
              [0x80, 0x31, 0x01, 0x00, 0x00, 0x3B, 0x00, 0x00, 0x01, 0x00, 0x00, 0x6E, 0x01, 0x00]])
  {
    TimeOfDay.WorkedExample();
  }
}
