/** The authentication handshake (lib_breeze/core/auth.c) and the key that it gives the
    transport. */
module BreezeAuth {
  import opened BreezeFrame

  const RANDOM_SEQ_LEN := 16
  const MAX_OKM_LEN := 16
  const MAX_SECRET_LEN := 64
  const PRODUCT_SECRET_LEN := 16
  const MAX_IKM_LEN := 88    // MAX_SECRET_LEN + BLE_MAC_LEN + RANDOM_SEQ_LEN + 2

  const COMMA: byte := 44
  const HI_SERVER: seq<byte> := [72, 105, 44, 83, 101, 114, 118, 101, 114]    // "Hi,Server"
  const HI_CLIENT: seq<byte> := [72, 105, 44, 67, 108, 105, 101, 110, 116]    // "Hi,Client"
  const OK_STR: seq<byte> := [79, 75]                                         // "OK"

  datatype Phase = Idle | Connected | SvcEnabled | RandSent | ReqRecvd | Done | Failed

  /** What is fixed at the start: the secrets, the device name that AUTH_KEY sends, and the hash. */
  datatype Config = Config(product: seq<byte>, device: seq<byte>, name: seq<byte>, sha: seq<byte> -> seq<byte>)

  predicate ValidConfig(c: Config) {
    |c.product| <= PRODUCT_SECRET_LEN && |c.device| <= MAX_SECRET_LEN
  }

  datatype Action = Send(cmd: byte, data: seq<byte>) | Rekey(key: seq<byte>) | Authenticated | Disconnect

  /** g_auth, g_dn_complete, and what was done so far. */
  datatype Auth = Auth(phase: Phase, ikm: seq<byte>, ikmLen: nat, okm: seq<byte>, dnComplete: bool, log: seq<Action>)

  predicate ValidAuth(a: Auth) {
    |a.ikm| == MAX_IKM_LEN && a.ikmLen + RANDOM_SEQ_LEN <= MAX_IKM_LEN
  }

  function SecretOf(c: Config, useDevice: bool): seq<byte> {
    if useDevice then c.device else c.product
  }

  /** memcpy */
  function Write(s: seq<byte>, at: nat, bytes: seq<byte>): (r: seq<byte>)
    requires at + |bytes| <= |s|
    ensures |r| == |s|
  {
    s[..at] + bytes + s[at + |bytes|..]
  }

  /** The first 16 bytes of the hash. */
  function Okm(c: Config, ikm: seq<byte>): seq<byte> {
    var h := c.sha(ikm);
    if |h| >= MAX_OKM_LEN then h[..MAX_OKM_LEN] else h
  }

  function Random(a: Auth): seq<byte>
    requires ValidAuth(a)
  {
    a.ikm[a.ikmLen..a.ikmLen + RANDOM_SEQ_LEN]
  }

  /** update_aes_key */
  function UpdateAesKey(c: Config, a: Auth, useDevice: bool): (r: Auth)
    requires ValidConfig(c) && ValidAuth(a)
    ensures ValidAuth(r)
  {
    var s := SecretOf(c, useDevice);
    var ikm := Write(Write(Write(a.ikm, 0, s), |s|, [COMMA]), |s| + 1, Random(a));
    var okm := Okm(c, ikm[..|s| + 1 + RANDOM_SEQ_LEN]);
    a.(ikm := ikm, ikmLen := |s| + 1, okm := okm, log := a.log + [Rekey(okm)])
  }

  // ---------- events ----------

  datatype Event =
    | OnConnected(timerOk: bool, random: seq<byte>)
    | OnServiceEnabled(txOk: bool)
    | OnTxDone(txOk: bool)
    | OnCommand(cmd: byte, data: seq<byte>, txOk: bool, timerOk: bool)
    | OnReset                       // core_reset: auth_reset, and transport_reset for g_dn_complete
    | OnTimeout                     // on_timeout

  predicate ValidEvent(e: Event) {
    e.OnConnected? ==> |e.random| == RANDOM_SEQ_LEN
  }

  /** core_handle_err for an error of this module */
  function Errored(a: Auth): Auth {
    a.(phase := Idle)
  }

  function Sent(a: Auth, cmd: byte, data: seq<byte>): Auth {
    a.(log := a.log + [Send(cmd, data)])
  }

  /** memcmp(text, data, MIN(length, strlen(text))) == 0 */
  predicate Matches(text: seq<byte>, data: seq<byte>) {
    forall i :: 0 <= i < |text| && i < |data| ==> data[i] == text[i]
  }

  /** auth_connected */
  function Connect(c: Config, a: Auth, timerOk: bool, random: seq<byte>): (r: Auth)
    requires ValidConfig(c) && ValidAuth(a) && |random| == RANDOM_SEQ_LEN
    ensures ValidAuth(r)
  {
    if !timerOk then Errored(a)
    else UpdateAesKey(c, a.(phase := Connected, ikm := Write(a.ikm, a.ikmLen, random)), false)
  }

  /** auth_service_enabled */
  function EnableService(a: Auth, txOk: bool): (r: Auth)
    requires ValidAuth(a)
    ensures ValidAuth(r)
  {
    var a' := Sent(a.(phase := SvcEnabled), BZ_CMD_AUTH_RAND, Random(a));
    if txOk then a' else Errored(a')
  }

  /** auth_tx_done */
  function TxDone(c: Config, a: Auth, txOk: bool): (r: Auth)
    requires ValidConfig(c) && ValidAuth(a)
    ensures ValidAuth(r)
  {
    if a.phase == SvcEnabled then
      var a' := Sent(a.(phase := RandSent), BZ_CMD_AUTH_KEY, c.name);
      if txOk then a' else Errored(a')
    else if a.phase == RandSent then UpdateAesKey(c, a, true)
    else a
  }

  /** The end of auth_rx_command. */
  function Conclude(a: Auth): Auth {
    if a.phase == Done then a.(log := a.log + [Authenticated])
    else if a.phase == Failed then a.(log := a.log + [Disconnect])
    else a
  }

  /** auth_rx_command */
  function RxCommand(a: Auth, cmd: byte, data: seq<byte>, txOk: bool, timerOk: bool): (r: Auth)
    requires ValidAuth(a)
    ensures ValidAuth(r)
  {
    if data == [] || !IsAuth(cmd) then a
    else if a.phase == RandSent then
      var a' := a.(dnComplete := true);
      if cmd == BZ_CMD_AUTH_REQ && Matches(HI_SERVER, data) then
        var a'' := Sent(a'.(phase := ReqRecvd), BZ_CMD_AUTH_RSP, HI_CLIENT);
        if txOk && timerOk then a'' else Errored(a'')
      else Conclude(a'.(phase := Failed))
    else if a.phase == ReqRecvd then
      Conclude(a.(phase := if cmd == BZ_CMD_AUTH_CFM && Matches(OK_STR, data) then Done else Failed))
    else
      var a' := Sent(a, BZ_CMD_ERR, []);
      if txOk then Conclude(a') else Errored(a')
  }

  function Step(c: Config, a: Auth, e: Event): (r: Auth)
    requires ValidConfig(c) && ValidAuth(a) && ValidEvent(e)
    ensures ValidAuth(r)
  {
    match e
    case OnConnected(timerOk, random) => Connect(c, a, timerOk, random)
    case OnServiceEnabled(txOk) => EnableService(a, txOk)
    case OnTxDone(txOk) => TxDone(c, a, txOk)
    case OnCommand(cmd, data, txOk, timerOk) => RxCommand(a, cmd, data, txOk, timerOk)
    case OnReset => a.(phase := Idle, dnComplete := false)
    case OnTimeout => Errored(a).(log := a.log + [Disconnect])
  }

  // ---------- runs ----------

  predicate ValidEvents(evs: seq<Event>) {
    forall i :: 0 <= i < |evs| ==> ValidEvent(evs[i])
  }

  function Init(evs: seq<Event>): (r: seq<Event>)
    requires evs != [] && ValidEvents(evs)
    ensures ValidEvents(r) && |r| == |evs| - 1
  {
    evs[..|evs| - 1]
  }

  function Last(evs: seq<Event>): (e: Event)
    requires evs != [] && ValidEvents(evs)
    ensures ValidEvent(e)
  {
    evs[|evs| - 1]
  }

  /** auth_init: the product secret and a comma are in place. */
  function Start(c: Config): (a: Auth)
    requires ValidConfig(c)
    ensures ValidAuth(a)
  {
    Auth(Idle, Write(seq(MAX_IKM_LEN, _ => 0), 0, c.product + [COMMA]), |c.product| + 1, seq(MAX_OKM_LEN, _ => 0), false, [])
  }

  function After(c: Config, evs: seq<Event>): (a: Auth)
    requires ValidConfig(c) && ValidEvents(evs)
    ensures ValidAuth(a)
    decreases |evs|
  {
    if evs == [] then Start(c) else Step(c, After(c, Init(evs)), Last(evs))
  }

  // ---------- the key ----------

  /** The random bytes of the connection: those of the last one that was made. */
  function Session(evs: seq<Event>): Option<seq<byte>>
    requires ValidEvents(evs)
    decreases |evs|
  {
    if evs == [] then None
    else
      match Last(evs)
      case OnConnected(timerOk, random) => if timerOk then Some(random) else Session(Init(evs))
      case _ => Session(Init(evs))
  }

  /** The device secret is in use: since the connection was made, a transmission ended after the
      random bytes had been sent. */
  function DeviceKeyed(c: Config, evs: seq<Event>): bool
    requires ValidConfig(c) && ValidEvents(evs)
    decreases |evs|
  {
    if evs == [] then false
    else
      match Last(evs)
      case OnConnected(timerOk, _) => !timerOk && DeviceKeyed(c, Init(evs))
      case OnTxDone(_) => After(c, Init(evs)).phase == RandSent || DeviceKeyed(c, Init(evs))
      case _ => DeviceKeyed(c, Init(evs))
  }

  /** The key material is secret, comma, random; and the key is the beginning of its hash. */
  predicate KeyedBy(c: Config, a: Auth, useDevice: bool, random: seq<byte>)
    requires ValidConfig(c) && ValidAuth(a)
  {
    var s := SecretOf(c, useDevice);
    var material := s + [COMMA] + random;
    a.ikmLen == |s| + 1 && |random| == RANDOM_SEQ_LEN && a.ikm[..|material|] == material && a.okm == Okm(c, material)
  }

  lemma WriteThree(s: seq<byte>, x: seq<byte>, y: seq<byte>, z: seq<byte>)
    requires |x| + |y| + |z| <= |s|
    ensures Write(Write(Write(s, 0, x), |x|, y), |x| + |y|, z)[..|x| + |y| + |z|] == x + y + z
  {
  }

  lemma KeyUpdated(c: Config, a: Auth, useDevice: bool)
    requires ValidConfig(c) && ValidAuth(a)
    ensures KeyedBy(c, UpdateAesKey(c, a, useDevice), useDevice, Random(a))
  {
    WriteThree(a.ikm, SecretOf(c, useDevice), [COMMA], Random(a));
  }

  lemma KeyedRandom(c: Config, a: Auth, useDevice: bool, random: seq<byte>)
    requires ValidConfig(c) && ValidAuth(a) && KeyedBy(c, a, useDevice, random)
    ensures Random(a) == random
  {
    var s := SecretOf(c, useDevice);
    var material := s + [COMMA] + random;
    assert material[|s| + 1..] == random;
    assert a.ikm[..|material|][|s| + 1..] == a.ikm[|s| + 1..|material|];
  }

  lemma ConnectKeyed(c: Config, a: Auth, random: seq<byte>)
    requires ValidConfig(c) && ValidAuth(a) && |random| == RANDOM_SEQ_LEN
    ensures KeyedBy(c, Connect(c, a, true, random), false, random)
  {
    var a' := a.(phase := Connected, ikm := Write(a.ikm, a.ikmLen, random));
    assert Random(a') == random;
    KeyUpdated(c, a', false);
  }

  lemma TxDoneKeyed(c: Config, a: Auth, txOk: bool, useDevice: bool, random: seq<byte>)
    requires ValidConfig(c) && ValidAuth(a) && KeyedBy(c, a, useDevice, random)
    ensures KeyedBy(c, TxDone(c, a, txOk), a.phase == RandSent || useDevice, random)
  {
    KeyedRandom(c, a, useDevice, random);
    KeyUpdated(c, a, true);
  }

  /** Over every run, from one connection to the next: the key comes from the secret in use and the
      random bytes of that connection, and from nothing else. */
  lemma {:induction false} RunKeyed(c: Config, evs: seq<Event>)
    requires ValidConfig(c) && ValidEvents(evs)
    ensures Session(evs).Some? ==> KeyedBy(c, After(c, evs), DeviceKeyed(c, evs), Session(evs).value)
    decreases |evs|
  {
    if evs != [] {
      var a := After(c, Init(evs));
      RunKeyed(c, Init(evs));
      match Last(evs)
      case OnConnected(timerOk, random) =>
        if timerOk { ConnectKeyed(c, a, random); }
      case OnTxDone(txOk) =>
        if Session(evs).Some? { TxDoneKeyed(c, a, txOk, DeviceKeyed(c, Init(evs)), Session(evs).value); }
      case OnServiceEnabled(_) =>
      case OnCommand(_, _, _, _) =>
      case OnReset =>
      case OnTimeout =>
    }
  }

  /** AUTH_RAND sends those very random bytes. */
  lemma RandIsSession(c: Config, evs: seq<Event>, txOk: bool)
    requires ValidConfig(c) && ValidEvents(evs) && Session(evs).Some?
    ensures EnableService(After(c, evs), txOk).log == After(c, evs).log + [Send(BZ_CMD_AUTH_RAND, Session(evs).value)]
  {
    RunKeyed(c, evs);
    KeyedRandom(c, After(c, evs), DeviceKeyed(c, evs), Session(evs).value);
  }

  /** Updating the key twice is the same as updating it once. */
  lemma RekeyIdempotent(c: Config, a: Auth, useDevice: bool)
    requires ValidConfig(c) && ValidAuth(a)
    ensures var once := UpdateAesKey(c, a, useDevice);
            var twice := UpdateAesKey(c, once, useDevice);
            twice.ikm == once.ikm && twice.ikmLen == once.ikmLen && twice.okm == once.okm
  {
    var once := UpdateAesKey(c, a, useDevice);
    KeyUpdated(c, a, useDevice);
    KeyedRandom(c, once, useDevice, Random(a));
    WriteSame(once.ikm, SecretOf(c, useDevice), [COMMA], Random(a));
  }

  lemma WriteSame(s: seq<byte>, x: seq<byte>, y: seq<byte>, z: seq<byte>)
    requires |x| + |y| + |z| <= |s| && s[..|x| + |y| + |z|] == x + y + z
    ensures Write(Write(Write(s, 0, x), |x|, y), |x| + |y|, z) == s
  {
    WriteThree(s, x, y, z);
    var w := Write(Write(Write(s, 0, x), |x|, y), |x| + |y|, z);
    var n := |x| + |y| + |z|;
    assert w[n..] == s[n..];
    assert w == w[..n] + w[n..] && s == s[..n] + s[n..];
  }

  // ---------- the order of the handshake ----------

  datatype Change = Change(phase: Phase, event: Event)

  /** The changes of phase, each with the event that made it. */
  function Changes(c: Config, evs: seq<Event>): seq<Change>
    requires ValidConfig(c) && ValidEvents(evs)
    decreases |evs|
  {
    if evs == [] then []
    else
      var before := Changes(c, Init(evs));
      if After(c, evs).phase == After(c, Init(evs)).phase then before else before + [Change(After(c, evs).phase, Last(evs))]
  }

  predicate EntersSvcEnabled(ch: Change) {
    ch.phase == SvcEnabled && ch.event.OnServiceEnabled?
  }

  predicate EntersRandSent(ch: Change) {
    ch.phase == RandSent && ch.event.OnTxDone?
  }

  predicate EntersReqRecvd(ch: Change) {
    ch.phase == ReqRecvd && ch.event.OnCommand? && ch.event.cmd == BZ_CMD_AUTH_REQ && ch.event.data != []
    && Matches(HI_SERVER, ch.event.data)
  }

  predicate EntersDone(ch: Change) {
    ch.phase == Done && ch.event.OnCommand? && ch.event.cmd == BZ_CMD_AUTH_CFM && ch.event.data != []
    && Matches(OK_STR, ch.event.data)
  }

  /** Over every run: from the peer's request on, g_dn_complete is set, so that what is sent
      encrypted is marked as such. */
  lemma {:induction false} RunMarks(c: Config, evs: seq<Event>)
    requires ValidConfig(c) && ValidEvents(evs)
    ensures After(c, evs).phase in {ReqRecvd, Done} ==> After(c, evs).dnComplete
    decreases |evs|
  {
    if evs != [] { RunMarks(c, Init(evs)); }
  }

  /** The last changes led to this phase along the handshake. */
  predicate Trail(phase: Phase, t: seq<Change>) {
    match phase
    case SvcEnabled => |t| >= 1 && EntersSvcEnabled(t[|t| - 1])
    case RandSent => |t| >= 2 && EntersSvcEnabled(t[|t| - 2]) && EntersRandSent(t[|t| - 1])
    case ReqRecvd =>
      |t| >= 3 && EntersSvcEnabled(t[|t| - 3]) && EntersRandSent(t[|t| - 2]) && EntersReqRecvd(t[|t| - 1])
    case Done =>
      |t| >= 4 && EntersSvcEnabled(t[|t| - 4]) && EntersRandSent(t[|t| - 3]) && EntersReqRecvd(t[|t| - 2])
      && EntersDone(t[|t| - 1])
    case _ => true
  }

  /** Over every run: the phase is DONE only if the last four changes were the service being
      enabled, the random bytes being sent, a matching request and a matching confirmation, in
      this order and with no reset, new connection or failure between them. */
  lemma {:induction false} RunTrail(c: Config, evs: seq<Event>)
    requires ValidConfig(c) && ValidEvents(evs)
    ensures Trail(After(c, evs).phase, Changes(c, evs))
    decreases |evs|
  {
    if evs != [] { RunTrail(c, Init(evs)); }
  }

  lemma {:induction false} DoneOnlyByHandshake(c: Config, evs: seq<Event>)
    requires ValidConfig(c) && ValidEvents(evs) && After(c, evs).phase == Done
    ensures var t := Changes(c, evs);
            |t| >= 4 && EntersSvcEnabled(t[|t| - 4]) && EntersRandSent(t[|t| - 3]) && EntersReqRecvd(t[|t| - 2])
            && EntersDone(t[|t| - 1])
  {
    RunTrail(c, evs);
  }

  // ---------- what was compared ----------

  /** The comparison stops at the end of the shorter one: a beginning of the text matches, and so
      does the text with anything after it. */
  lemma MatchesIff(text: seq<byte>, data: seq<byte>)
    ensures Matches(text, data) <==> data <= text || text <= data
  {
  }

  /** When a matching text was received in full: exactly if enough was received. */
  lemma FullIff(text: seq<byte>, data: seq<byte>)
    requires Matches(text, data)
    ensures text <= data <==> |data| >= |text|
  {
    MatchesIff(text, data);
  }

  /** Over every run that authenticates the peer: it sent the whole of "Hi,Server" and of "OK"
      exactly if the data of its request and of its confirmation were that long. */
  lemma {:induction false} DoneTexts(c: Config, evs: seq<Event>)
    requires ValidConfig(c) && ValidEvents(evs) && After(c, evs).phase == Done
    ensures var t := Changes(c, evs);
            && |t| >= 4 && EntersReqRecvd(t[|t| - 2]) && EntersDone(t[|t| - 1])
            && (HI_SERVER <= t[|t| - 2].event.data <==> |t[|t| - 2].event.data| >= |HI_SERVER|)
            && (OK_STR <= t[|t| - 1].event.data <==> |t[|t| - 1].event.data| >= |OK_STR|)
  {
    DoneOnlyByHandshake(c, evs);
    var t := Changes(c, evs);
    FullIff(HI_SERVER, t[|t| - 2].event.data);
    FullIff(OK_STR, t[|t| - 1].event.data);
  }

  // ---------- what a command of the peer comes to ----------

  /** A beginning of the text, or the text with anything after it. */
  predicate Agrees(data: seq<byte>, text: seq<byte>) {
    data != [] && (data <= text || text <= data)
  }

  /** The bytes of a text. */
  function Ascii(text: string): (r: seq<byte>)
    ensures |r| == |text|
  {
    seq(|text|, i requires 0 <= i < |text| => text[i] as int % 256)
  }

  lemma TextsAre()
    ensures HI_SERVER == Ascii("Hi,Server") && HI_CLIENT == Ascii("Hi,Client") && OK_STR == Ascii("OK")
  {
  }

  lemma AfterSnoc(c: Config, evs: seq<Event>, e: Event)
    requires ValidConfig(c) && ValidEvents(evs) && ValidEvent(e)
    ensures ValidEvents(evs + [e]) && After(c, evs + [e]) == Step(c, After(c, evs), e)
  {
    assert Init(evs + [e]) == evs;
  }

  /** What the state becomes: its phase, what was done, and that g_dn_complete is set; the key stays. */
  predicate Becomes(a: Auth, r: Auth, phase: Phase, done: seq<Action>, dnComplete: bool) {
    r.phase == phase && r.log == a.log + done && r.dnComplete == dnComplete
    && r.ikm == a.ikm && r.ikmLen == a.ikmLen && r.okm == a.okm
  }

  /** After any run that has sent the random bytes: an authentication command with data leads on,
      and is answered, exactly if it is AUTH_REQ with a text that agrees with "Hi,Server" (and ends
      the handshake if the answer or the timer fails); any other one fails the handshake and
      disconnects. What is not an authentication command, or has no data, changes nothing. */
  lemma {:induction false} RequestOutcome(c: Config, evs: seq<Event>, cmd: byte, data: seq<byte>, txOk: bool, timerOk: bool)
    requires ValidConfig(c) && ValidEvents(evs) && After(c, evs).phase == RandSent
    ensures ValidEvents(evs + [OnCommand(cmd, data, txOk, timerOk)])
    ensures var a, r := After(c, evs), After(c, evs + [OnCommand(cmd, data, txOk, timerOk)]);
            if data == [] || !(0x10 <= cmd < 0x20) then r == a
            else if cmd == BZ_CMD_AUTH_REQ && Agrees(data, HI_SERVER) then
              Becomes(a, r, if txOk && timerOk then ReqRecvd else Idle, [Send(BZ_CMD_AUTH_RSP, HI_CLIENT)], true)
            else Becomes(a, r, Failed, [Disconnect], true)
  {
    AfterSnoc(c, evs, OnCommand(cmd, data, txOk, timerOk));
    MatchesIff(HI_SERVER, data);
  }

  /** And after any run that has had the request: the handshake is done, and the peer authenticated,
      exactly if the command is AUTH_CFM with a text that agrees with "OK". */
  lemma {:induction false} ConfirmationOutcome(c: Config, evs: seq<Event>, cmd: byte, data: seq<byte>, txOk: bool, timerOk: bool)
    requires ValidConfig(c) && ValidEvents(evs) && After(c, evs).phase == ReqRecvd
    ensures ValidEvents(evs + [OnCommand(cmd, data, txOk, timerOk)])
    ensures var a, r := After(c, evs), After(c, evs + [OnCommand(cmd, data, txOk, timerOk)]);
            if data == [] || !(0x10 <= cmd < 0x20) then r == a
            else if cmd == BZ_CMD_AUTH_CFM && Agrees(data, OK_STR) then Becomes(a, r, Done, [Authenticated], true)
            else Becomes(a, r, Failed, [Disconnect], true)
  {
    AfterSnoc(c, evs, OnCommand(cmd, data, txOk, timerOk));
    MatchesIff(OK_STR, data);
    RunMarks(c, evs);
  }

  /** In every other phase an authentication command is answered by an error, and what follows from
      the phase is notified again. */
  lemma {:induction false} UnexpectedOutcome(c: Config, evs: seq<Event>, cmd: byte, data: seq<byte>, txOk: bool, timerOk: bool)
    requires ValidConfig(c) && ValidEvents(evs) && After(c, evs).phase != RandSent && After(c, evs).phase != ReqRecvd
    ensures ValidEvents(evs + [OnCommand(cmd, data, txOk, timerOk)])
    ensures var a, r := After(c, evs), After(c, evs + [OnCommand(cmd, data, txOk, timerOk)]);
            if data == [] || !(0x10 <= cmd < 0x20) then r == a
            else
              Becomes(a, r, if txOk then a.phase else Idle,
                      [Send(BZ_CMD_ERR, [])] + (if txOk && a.phase == Done then [Authenticated]
                                                else if txOk && a.phase == Failed then [Disconnect] else []), a.dnComplete)
  {
    AfterSnoc(c, evs, OnCommand(cmd, data, txOk, timerOk));
  }

  /** What is sent when the service is enabled and when a transmission is done, and that a handshake
      ends whose message the link does not take. */
  lemma {:induction false} SendingOutcome(c: Config, evs: seq<Event>, txOk: bool)
    requires ValidConfig(c) && ValidEvents(evs)
    ensures ValidEvents(evs + [OnServiceEnabled(txOk)]) && ValidEvents(evs + [OnTxDone(txOk)])
    ensures var a, r := After(c, evs), After(c, evs + [OnServiceEnabled(txOk)]);
            Becomes(a, r, if txOk then SvcEnabled else Idle, [Send(BZ_CMD_AUTH_RAND, Random(a))], a.dnComplete)
    ensures var a, r := After(c, evs), After(c, evs + [OnTxDone(txOk)]);
            && (a.phase == SvcEnabled ==>
                 Becomes(a, r, if txOk then RandSent else Idle, [Send(BZ_CMD_AUTH_KEY, c.name)], a.dnComplete))
            && (a.phase != SvcEnabled && a.phase != RandSent ==> r == a)
  {
    AfterSnoc(c, evs, OnServiceEnabled(txOk));
    AfterSnoc(c, evs, OnTxDone(txOk));
  }

  /** What ends a handshake at any point of a run: the timer, which disconnects, a reset, and a
      connection whose timer does not start. */
  lemma {:induction false} EndingOutcome(c: Config, evs: seq<Event>, random: seq<byte>)
    requires ValidConfig(c) && ValidEvents(evs) && |random| == RANDOM_SEQ_LEN
    ensures ValidEvents(evs + [OnTimeout]) && ValidEvents(evs + [OnReset]) && ValidEvents(evs + [OnConnected(false, random)])
    ensures var a := After(c, evs);
            && Becomes(a, After(c, evs + [OnTimeout]), Idle, [Disconnect], a.dnComplete)
            && Becomes(a, After(c, evs + [OnReset]), Idle, [], false)
            && Becomes(a, After(c, evs + [OnConnected(false, random)]), Idle, [], a.dnComplete)
  {
    AfterSnoc(c, evs, OnTimeout);
    AfterSnoc(c, evs, OnReset);
    AfterSnoc(c, evs, OnConnected(false, random));
  }

  /** The run of a peer that sends these two texts, on a link on which nothing fails. */
  function PeerRun(random: seq<byte>, request: seq<byte>, confirmation: seq<byte>): (evs: seq<Event>)
    requires |random| == RANDOM_SEQ_LEN
    ensures ValidEvents(evs)
  {
    [OnConnected(true, random), OnServiceEnabled(true), OnTxDone(true), OnTxDone(true),
     OnCommand(BZ_CMD_AUTH_REQ, request, true, true), OnTxDone(true), OnCommand(BZ_CMD_AUTH_CFM, confirmation, true, true)]
  }

  /** The key that the secret and the random bytes give. */
  function KeyOf(c: Config, secret: seq<byte>, random: seq<byte>): seq<byte> {
    Okm(c, secret + [COMMA] + random)
  }

  /** The first two events: the first key is made and the random bytes are sent. */
  lemma {:induction false} FirstKey(c: Config, random: seq<byte>, evs: seq<Event>)
    requires ValidConfig(c) && |random| == RANDOM_SEQ_LEN && evs == [OnConnected(true, random), OnServiceEnabled(true)]
    ensures ValidEvents(evs) && After(c, evs).phase == SvcEnabled && KeyedBy(c, After(c, evs), false, random)
    ensures After(c, evs).log == [Rekey(KeyOf(c, c.product, random)), Send(BZ_CMD_AUTH_RAND, random)]
  {
    AfterSnoc(c, [], evs[0]);
    AfterSnoc(c, evs[..1], evs[1]);
    assert [] + [evs[0]] == evs[..1] && evs[..1] + [evs[1]] == evs;
    ConnectKeyed(c, Start(c), random);
    KeyedRandom(c, After(c, evs[..1]), false, random);
  }

  /** The first four: both keys are made, the random bytes and the name are sent. */
  lemma {:induction false} Opening(c: Config, random: seq<byte>, evs: seq<Event>)
    requires ValidConfig(c) && |random| == RANDOM_SEQ_LEN
    requires evs == [OnConnected(true, random), OnServiceEnabled(true), OnTxDone(true), OnTxDone(true)]
    ensures ValidEvents(evs) && After(c, evs).phase == RandSent
    ensures After(c, evs).log
         == [Rekey(KeyOf(c, c.product, random)), Send(BZ_CMD_AUTH_RAND, random), Send(BZ_CMD_AUTH_KEY, c.name),
             Rekey(KeyOf(c, c.device, random))]
  {
    FirstKey(c, random, evs[..2]);
    AfterSnoc(c, evs[..2], evs[2]);
    AfterSnoc(c, evs[..3], evs[3]);
    assert evs[..2] + [evs[2]] == evs[..3] && evs[..3] + [evs[3]] == evs;
    KeyedRandom(c, After(c, evs[..3]), false, random);
    KeyUpdated(c, After(c, evs[..3]), true);
  }

  /** It is authenticated exactly if its texts agree with "Hi,Server" and "OK"; and then this is
      all that was done. */
  lemma {:induction false} PeerAuthenticatedIff(c: Config, random: seq<byte>, request: seq<byte>, confirmation: seq<byte>)
    requires ValidConfig(c) && |random| == RANDOM_SEQ_LEN && request != [] && confirmation != []
    ensures After(c, PeerRun(random, request, confirmation)).phase == Done
            <==> Agrees(request, HI_SERVER) && Agrees(confirmation, OK_STR)
    ensures Agrees(request, HI_SERVER) && Agrees(confirmation, OK_STR) ==>
              After(c, PeerRun(random, request, confirmation)).log
              == [Rekey(KeyOf(c, c.product, random)), Send(BZ_CMD_AUTH_RAND, random), Send(BZ_CMD_AUTH_KEY, c.name),
                  Rekey(KeyOf(c, c.device, random)), Send(BZ_CMD_AUTH_RSP, HI_CLIENT), Authenticated]
  {
    var evs := PeerRun(random, request, confirmation);
    Opening(c, random, evs[..4]);
    RequestOutcome(c, evs[..4], BZ_CMD_AUTH_REQ, request, true, true);
    assert evs[..4] + [evs[4]] == evs[..5];
    AfterSnoc(c, evs[..5], evs[5]);
    assert evs[..5] + [evs[5]] == evs[..6] && evs[..6] + [evs[6]] == evs;
    if Agrees(request, HI_SERVER) {
      ConfirmationOutcome(c, evs[..6], BZ_CMD_AUTH_CFM, confirmation, true, true);
    } else {
      UnexpectedOutcome(c, evs[..6], BZ_CMD_AUTH_CFM, confirmation, true, true);
    }
  }

  /** So is a peer that sends one byte for each: "H" and "O". */
  lemma {:induction false} OneByteAuthenticates(c: Config, random: seq<byte>)
    requires ValidConfig(c) && |random| == RANDOM_SEQ_LEN
    ensures After(c, PeerRun(random, [72], [79])).phase == Done
    ensures Authenticated in After(c, PeerRun(random, [72], [79])).log
  {
    PeerAuthenticatedIff(c, random, [72], [79]);
  }
}
