/** The user-based security model: flags, levels, users, keyed primitives and the time window. */
module Usm {
  import opened Bytes

  // ----- msgFlags and security levels -----

  predicate IsAuth(flags: byte) { flags % 2 == 1 }
  predicate IsPriv(flags: byte) { flags / 2 % 2 == 1 }
  predicate IsReportable(flags: byte) { flags / 4 % 2 == 1 }

  datatype SecurityLevel = NoAuthNoPriv | AuthNoPriv | AuthPriv {
    function Rank(): nat
    {
      match this case NoAuthNoPriv => 0 case AuthNoPriv => 1 case AuthPriv => 2
    }
  }

  /** privFlag without authFlag names no level. */
  function LevelOf(flags: byte): Option<SecurityLevel>
  {
    match (IsAuth(flags), IsPriv(flags))
    case (false, false) => Some(NoAuthNoPriv)
    case (true, false) => Some(AuthNoPriv)
    case (true, true) => Some(AuthPriv)
    case (false, true) => None
  }

  /** msgFlags by bit value (section 6.4 of RFC 3412): 1 auth, 2 priv, 4 reportable, the rest reserved. */
  lemma FlagBits(auth: bool, priv: bool, reportable: bool, reserved: nat)
    requires reserved < 32
    ensures var flags: byte := 8 * reserved + (if reportable then 4 else 0) + (if priv then 2 else 0) +
                               (if auth then 1 else 0);
            IsAuth(flags) == auth && IsPriv(flags) == priv && IsReportable(flags) == reportable &&
            LevelOf(flags) == if priv && !auth then None
                              else Some(if priv then AuthPriv else if auth then AuthNoPriv else NoAuthNoPriv)
  {
    var a, b, c := if auth then 1 else 0, if priv then 1 else 0, if reportable then 1 else 0;
    var flags: byte := 8 * reserved + 4 * c + 2 * b + a;
    assert flags / 2 == 4 * reserved + 2 * c + b;
    assert flags / 4 == 2 * reserved + c;
  }

  // ----- protocols, taken as parameters -----

  datatype AuthProtocol = HmacSha256 | HmacSha512 {
    function KeyLen(): nat { match this case HmacSha256 => 32 case HmacSha512 => 64 }
    function MacLen(): nat { match this case HmacSha256 => 24 case HmacSha512 => 48 }
  }

  datatype PrivProtocol = Aes128 | Aes256 {
    function KeyLen(): nat { match this case Aes128 => 16 case Aes256 => 32 }
  }

  /** Key and MAC lengths in octets (sections 4.2 of RFC 7860 and 1.2 of RFC 3826). */
  lemma ProtocolLengths()
    ensures HmacSha256.KeyLen() == 32 && HmacSha256.MacLen() == 24
    ensures HmacSha512.KeyLen() == 64 && HmacSha512.MacLen() == 48
    ensures Aes128.KeyLen() == 16 && Aes256.KeyLen() == 32
  {}

  /** The keyed primitives of the foreign crates, as functions of protocol, key and input. */
  datatype Primitives = Primitives(
    mac: (AuthProtocol, bytes, bytes) -> bytes,
    encrypt: (PrivProtocol, bytes, bytes, bytes) -> bytes,
    decrypt: (PrivProtocol, bytes, bytes, bytes) -> bytes)
  {
    /** MACs are truncated to a fixed length; the cipher keeps lengths and decryption inverts it. */
    ghost predicate Lawful()
    {
      && (forall p, k, m :: |mac(p, k, m)| == p.MacLen())
      && (forall p, k, iv, m :: |encrypt(p, k, iv, m)| == |m|)
      && (forall p, k, iv, m :: decrypt(p, k, iv, encrypt(p, k, iv, m)) == m)
    }

    function ComputeMac(p: AuthProtocol, key: bytes, message: bytes): Option<bytes>
    {
      if |key| != p.KeyLen() then None else Some(mac(p, key, message))
    }

    predicate VerifyMac(p: AuthProtocol, key: bytes, message: bytes, expected: bytes)
    {
      |key| == p.KeyLen() && |expected| == p.MacLen() && mac(p, key, message) == expected
    }

    function Encrypt(p: PrivProtocol, key: bytes, iv: bytes, plaintext: bytes): Option<bytes>
    {
      if |key| != p.KeyLen() then None else Some(encrypt(p, key, iv, plaintext))
    }

    function Decrypt(p: PrivProtocol, key: bytes, iv: bytes, ciphertext: bytes): Option<bytes>
    {
      if |key| != p.KeyLen() then None else Some(decrypt(p, key, iv, ciphertext))
    }
  }

  // ----- users -----

  datatype AuthCredentials = AuthCredentials(protocol: AuthProtocol, key: bytes)
  datatype PrivCredentials = PrivCredentials(protocol: PrivProtocol, key: bytes)

  datatype User = User(name: bytes, auth: Option<AuthCredentials>, priv: Option<PrivCredentials>) {
    /** What the public constructors establish. */
    predicate WellFormed()
    {
      && 1 <= |name| <= 32
      && (auth.Some? ==> |auth.value.key| == auth.value.protocol.KeyLen())
      && (priv.Some? ==> auth.Some? && |priv.value.key| == priv.value.protocol.KeyLen())
    }

    function Level(): SecurityLevel
    {
      match (auth, priv)
      case (Some(_), Some(_)) => AuthPriv
      case (Some(_), None) => AuthNoPriv
      case (None, _) => NoAuthNoPriv
    }
  }

  /** The highest level the configured credentials can serve. */
  function Ceiling(user: Option<User>): SecurityLevel
  {
    match user case Some(u) => u.Level() case None => NoAuthNoPriv
  }

  /** A floor above noAuthNoPriv without a user cannot be satisfied. */
  predicate SecurityLevelRequiresUser(user: Option<User>, floor: SecurityLevel)
  {
    user.None? && floor.Rank() > NoAuthNoPriv.Rank()
  }

  predicate ShouldReject(user: Option<User>, floor: SecurityLevel, level: Option<SecurityLevel>)
  {
    level.None?
    || level.value.Rank() < floor.Rank()
    || (user.Some? && level.value.Rank() > user.value.Level().Rank())
    || (user.None? && level.value.Rank() > NoAuthNoPriv.Rank())
  }

  /** The security settings the agent builder derives from its configuration. */
  datatype SecurityConfig = NoSecurity | AuthOnly(user: User) | AuthAndPriv(user: User) {
    predicate Consistent()
    {
      match this
      case NoSecurity => true
      case AuthOnly(u) => u.WellFormed() && u.auth.Some? && u.priv.None?
      case AuthAndPriv(u) => u.WellFormed() && u.auth.Some? && u.priv.Some?
    }

    function ConfiguredUser(): Option<User>
    {
      match this case NoSecurity => None case AuthOnly(u) => Some(u) case AuthAndPriv(u) => Some(u)
    }

    function Floor(): SecurityLevel
    {
      match this case NoSecurity => NoAuthNoPriv case AuthOnly(_) => AuthNoPriv case AuthAndPriv(_) => AuthPriv
    }
  }

  /** Exactly the levels between floor and ceiling pass. */
  lemma LevelWindow(user: Option<User>, floor: SecurityLevel, flags: byte)
    ensures !ShouldReject(user, floor, LevelOf(flags)) <==>
            LevelOf(flags).Some? && floor.Rank() <= LevelOf(flags).value.Rank() <= Ceiling(user).Rank()
  {}

  /** A built agent has no gap between floor and ceiling, so one level passes. */
  lemma BuiltAgentHasOneLevel(config: SecurityConfig, flags: byte)
    requires config.Consistent()
    ensures Ceiling(config.ConfiguredUser()) == config.Floor()
    ensures !SecurityLevelRequiresUser(config.ConfiguredUser(), config.Floor())
    ensures !ShouldReject(config.ConfiguredUser(), config.Floor(), LevelOf(flags)) <==>
            LevelOf(flags) == Some(config.Floor())
  {
    LevelWindow(config.ConfiguredUser(), config.Floor(), flags);
  }

  // ----- time window -----

  /** engineBoots and engineTime as the decoder stores them: a negative wire value becomes `u32::MAX`. */
  function WireUnsigned(n: i32): u32 { if n < 0 then TWO_32 - 1 else n }

  predicate InTimeWindow(msgBoots: u32, msgTime: u32, engineBoots: u32, engineTime: u32)
  {
    msgBoots == engineBoots &&
    var diff := msgTime as int - engineTime as int;
    (if diff < 0 then -diff else diff) <= 150
  }

  /** Timely means the same boots and at most 150 seconds apart; a negative wire value reads as 2^32 - 1. */
  lemma WindowInNumbers(boots: i32, time: i32, engineBoots: u32, engineTime: u32)
    ensures InTimeWindow(WireUnsigned(boots), WireUnsigned(time), engineBoots, engineTime) <==>
            (if boots < 0 then 0xFFFF_FFFF else boots as int) == engineBoots &&
            -150 <= (if time < 0 then 0xFFFF_FFFF else time as int) - engineTime <= 150
  {}
}
