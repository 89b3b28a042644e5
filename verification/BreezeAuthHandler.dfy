/** The handshake as it stands in memory: g_auth and its event handlers. */
module BreezeAuthHandler {
  import opened BreezeFrame
  import opened BreezeAuth
  import Sha256
  import Sha256Words

  /** The hash is SHA-256. */
  ghost predicate IsSha256(c: Config) {
    forall m :: c.sha(m) == Sha256Words.Digest(m)
  }

  class AuthHandler {
    const config: Config
    var phase: Phase
    const ikm: array<byte>
    var ikmLen: nat
    const okm: array<byte>
    var dnComplete: bool
    ghost var log: seq<Action>

    ghost predicate Valid()
      reads this
    {
      && ValidConfig(config) && IsSha256(config) && ikm != okm
      && ikm.Length == MAX_IKM_LEN && ikmLen + RANDOM_SEQ_LEN <= MAX_IKM_LEN && okm.Length == MAX_OKM_LEN
    }

    ghost function State(): (a: Auth)
      requires Valid()
      reads this, ikm, okm
      ensures ValidAuth(a)
    {
      Auth(phase, ikm[..], ikmLen, okm[..], dnComplete, log)
    }

    /** auth_init */
    constructor (config: Config)
      requires ValidConfig(config) && IsSha256(config)
      ensures Valid() && this.config == config && State() == Start(config) && fresh(ikm) && fresh(okm)
    {
      this.config := config;
      ikm := new byte[MAX_IKM_LEN](_ => 0);
      okm := new byte[MAX_OKM_LEN](_ => 0);
      phase, dnComplete, log := Idle, false, [];
      ikmLen := |config.product| + 1;
      new;
      Copy(ikm, 0, config.product + [COMMA]);
      assert okm[..] == seq(MAX_OKM_LEN, _ => 0);
    }

    /** memcpy into a buffer */
    static method Copy(buff: array<byte>, at: nat, bytes: seq<byte>)
      requires at + |bytes| <= buff.Length
      modifies buff
      ensures buff[..] == Write(old(buff[..]), at, bytes)
    {
      forall i | 0 <= i < |bytes| { buff[at + i] := bytes[i]; }
    }

    /** update_aes_key */
    method UpdateKey(useDevice: bool)
      requires Valid()
      modifies this`ikmLen, this`log, ikm, okm
      ensures Valid() && State() == UpdateAesKey(config, old(State()), useDevice)
    {
      var backup := ikm[ikmLen..ikmLen + RANDOM_SEQ_LEN];
      var secret := if useDevice then config.device else config.product;
      Copy(ikm, 0, secret);
      Copy(ikm, |secret|, [COMMA]);
      Copy(ikm, |secret| + 1, backup);
      ikmLen := |secret| + 1;
      HashKey(ikm[..ikmLen + RANDOM_SEQ_LEN]);
      log := log + [Rekey(okm[..])];
    }

    /** sha256_init, sha256_update, sha256_final, and the first 16 bytes */
    method HashKey(material: seq<byte>)
      requires Valid()
      modifies okm
      ensures okm[..] == Okm(config, material)
    {
      var h := Sha256.HashParts([material]);
      assert Sha256.Concat([material]) == material by { assert [material][..0] == []; }
      assert h[..] == config.sha(material);
      forall i | 0 <= i < MAX_OKM_LEN { okm[i] := h[i]; }
      assert okm[..] == h[..][..MAX_OKM_LEN];
    }

    /** core_handle_err for this module's errors: auth_reset */
    method HandleErr()
      requires Valid()
      modifies this`phase
      ensures Valid() && State() == Errored(old(State()))
    {
      phase := Idle;
    }

    /** auth_connected */
    method OnConnect(timerOk: bool, random: seq<byte>)
      requires Valid() && |random| == RANDOM_SEQ_LEN
      modifies this, ikm, okm
      ensures Valid() && State() == Connect(config, old(State()), timerOk, random)
    {
      if !timerOk {
        HandleErr();
        return;
      }
      phase := Connected;
      Copy(ikm, ikmLen, random);
      UpdateKey(false);
    }

    /** auth_service_enabled */
    method OnService(txOk: bool)
      requires Valid()
      modifies this`phase, this`log
      ensures Valid() && State() == EnableService(old(State()), txOk)
    {
      phase := SvcEnabled;
      log := log + [Send(BZ_CMD_AUTH_RAND, ikm[ikmLen..ikmLen + RANDOM_SEQ_LEN])];
      assert ikm[ikmLen..ikmLen + RANDOM_SEQ_LEN] == ikm[..][ikmLen..ikmLen + RANDOM_SEQ_LEN];
      if !txOk { HandleErr(); }
    }

    /** auth_tx_done */
    method OnTransmitted(txOk: bool)
      requires Valid()
      modifies this, ikm, okm
      ensures Valid() && State() == TxDone(config, old(State()), txOk)
    {
      if phase == SvcEnabled {
        phase := RandSent;
        log := log + [Send(BZ_CMD_AUTH_KEY, config.name)];
        if !txOk { HandleErr(); }
      } else if phase == RandSent {
        UpdateKey(true);
      }
    }

    /** auth_rx_command */
    method OnReceived(cmd: byte, data: seq<byte>, txOk: bool, timerOk: bool)
      requires Valid()
      modifies this`phase, this`dnComplete, this`log
      ensures Valid() && State() == RxCommand(old(State()), cmd, data, txOk, timerOk)
    {
      if |data| == 0 || !IsAuth(cmd) { return; }
      if phase == RandSent {
        dnComplete := true;
        if cmd == BZ_CMD_AUTH_REQ && Matches(HI_SERVER, data) {
          phase := ReqRecvd;
          log := log + [Send(BZ_CMD_AUTH_RSP, HI_CLIENT)];
          if !txOk || !timerOk {
            HandleErr();
            return;
          }
        } else {
          phase := Failed;
        }
      } else if phase == ReqRecvd {
        phase := if cmd == BZ_CMD_AUTH_CFM && Matches(OK_STR, data) then Done else Failed;
      } else {
        log := log + [Send(BZ_CMD_ERR, [])];
        if !txOk {
          HandleErr();
          return;
        }
      }
      if phase == Done {
        log := log + [Authenticated];
      } else if phase == Failed {
        log := log + [Disconnect];
      }
    }
  }

  /** With SHA-256 as the hash, the key of a connection is the beginning of the digest of the
      secret in use, a comma and the random bytes. */
  lemma SessionKey(c: Config, evs: seq<Event>)
    requires ValidConfig(c) && IsSha256(c) && ValidEvents(evs) && Session(evs).Some?
    ensures After(c, evs).okm
         == Sha256Words.Digest((if DeviceKeyed(c, evs) then c.device else c.product) + [44] + Session(evs).value)[..16]
  {
    RunKeyed(c, evs);
    var material := SecretOf(c, DeviceKeyed(c, evs)) + [COMMA] + Session(evs).value;
    assert c.sha(material) == Sha256Words.Digest(material);
  }
}
