/**
 * The single-credential login file of src/login_system.c.
 *
 * `register_user` writes one record: the username length as a native `int`,
 * the username bytes, then the 32-byte SHA-256 digest of the password.
 * `login_user` reads that record back and accepts when `strcmp` finds the
 * entered username equal to the stored one and `memcmp` finds the digest of
 * the entered password equal to the stored digest.
 *
 * SHA-256 is left uninterpreted: every operation takes the hash function as
 * a parameter `h` of type `Hasher`, whose only known property is that it
 * yields 32 bytes. The login file is an `Option<seq<byte>>`: None when
 * `fopen` cannot open it.
 */
module Credential {
  import opened Wrappers
  import opened CLib
  import opened Console

  /** MAX_USER: the size of the username and password buffers. */
  const MaxUser: nat := 50

  /** The size of a SHA-256 digest. */
  const DigestSize: nat := 32

  type Digest = s: seq<byte> | |s| == DigestSize witness seq(DigestSize, _ => 0)

  /** sha256_init / sha256_update / sha256_final over the password bytes. */
  type Hasher = seq<byte> -> Digest

  /** What `login_user` reads from the file: the `name_len` bytes of
      `stored_user` before its NUL patch, and `stored_hash`. */
  datatype Stored = Stored(name: seq<byte>, digest: Digest)

  /** Why a file holds no complete record. The first two leave `login_user`
      with undefined behaviour. A truncated record with a length in 0..49
      still gives a defined stored name: `fread` fills `stored_user` with
      the name bytes the file has, the rest of the buffer stays zero, and
      `nameRead` is those bytes. Only `stored_hash` is then incomplete. */
  datatype DecodeError =
    | ShortLength                           // fewer than sizeof(int) bytes: name_len stays uninitialised
    | LengthOutOfRange(nameLen: int)        // stored_user[name_len] is outside the 50-byte buffer
    | Truncated(nameRead: seq<byte>)        // the digest (or the name) runs past the end of the file

  /** The bytes `register_user` writes for username u and digest d: the
      length field, the username, the digest. */
  function EncodeRecord(u: seq<byte>, d: Digest): (r: seq<byte>)
    requires |u| < MaxUser
    ensures |r| == IntSize + |u| + DigestSize
  {
    IntBytes(|u|) + u + d
  }

  /** The fields `login_user` reads from the login file, or why the file
      holds no complete record. Bytes after the record are never read. */
  function DecodeRecord(file: seq<byte>): (r: Result<Stored, DecodeError>)
    ensures r.Ok? ==> |r.value.name| < MaxUser
    ensures r.Err? && r.error.Truncated? ==>
              |r.error.nameRead| < MaxUser && IntSize + |r.error.nameRead| <= |file| &&
              file[IntSize..IntSize + |r.error.nameRead|] == r.error.nameRead
    ensures r.Ok? <==> IntSize <= |file| &&
                       0 <= IntFromBytes(file[..IntSize]) < MaxUser &&
                       IntSize + IntFromBytes(file[..IntSize]) + DigestSize <= |file|
  {
    if |file| < IntSize then Err(ShortLength)
    else
      var n := IntFromBytes(file[..IntSize]);
      if n < 0 || n >= MaxUser then Err(LengthOutOfRange(n))
      else if |file| < IntSize + n then Err(Truncated(file[IntSize..]))
      else if |file| < IntSize + n + DigestSize then Err(Truncated(file[IntSize..IntSize + n]))
      else Ok(Stored(file[IntSize..IntSize + n], file[IntSize + n..IntSize + n + DigestSize]))
  }

  /** Round trip: reading the record written for (u, d), whatever follows it
      in the file, gives back u and d. */
  lemma DecodeEncode(u: seq<byte>, d: Digest, trailing: seq<byte>)
    requires |u| < MaxUser
    ensures DecodeRecord(EncodeRecord(u, d) + trailing) == Ok(Stored(u, d))
  {
    var file := EncodeRecord(u, d) + trailing;
    IntBytesRoundTrip(|u|);
    assert file[..IntSize] == IntBytes(|u|);
    assert file[IntSize..IntSize + |u|] == u;
    assert file[IntSize + |u|..IntSize + |u| + DigestSize] == d;
  }

  /** The converse: a file that reads back as s starts with the record
      written for s. */
  lemma EncodeDecode(file: seq<byte>)
    requires DecodeRecord(file).Ok?
    ensures var s := DecodeRecord(file).value;
            |s.name| < MaxUser &&
            file == EncodeRecord(s.name, s.digest) + file[IntSize + |s.name| + DigestSize..]
  {
    var s := DecodeRecord(file).value;
    var n := |s.name|;
    IntFromBytesRoundTrip(file[..IntSize]);
    assert file == file[..IntSize] + file[IntSize..IntSize + n]
                 + file[IntSize + n..IntSize + n + DigestSize] + file[IntSize + n + DigestSize..];
  }

  /** Distinct credentials give distinct records. */
  lemma EncodeInjective(u1: seq<byte>, d1: Digest, u2: seq<byte>, d2: Digest)
    requires |u1| < MaxUser && |u2| < MaxUser
    requires EncodeRecord(u1, d1) == EncodeRecord(u2, d2)
    ensures u1 == u2 && d1 == d2
  {
    DecodeEncode(u1, d1, []);
    DecodeEncode(u2, d2, []);
    assert EncodeRecord(u1, d1) + [] == EncodeRecord(u2, d2) + [];
  }

  /** The test of `login_user`: `strcmp(username, stored_user) == 0` and
      `memcmp(input_hash, stored_hash, 32) == 0`, where input_hash digests the
      `strlen(password)` bytes of the password buffer. It accepts exactly
      when the username strings are equal, byte for byte and
      case-sensitively, and the password's digest equals the stored one on
      all 32 bytes. */
  function Accepts(e: Entered, s: Stored, h: Hasher): (r: bool)
    ensures r <==> CStr(e.username) == CStr(s.name) && h(CStr(e.password)) == s.digest
  {
    var d := h(CStr(e.password));
    assert d[..DigestSize] == d && s.digest[..DigestSize] == s.digest;
    Strcmp(e.username, s.name) == 0 && Memcmp(d, s.digest, DigestSize) == 0
  }

  /** What one `login_user` of src/login_system.c reports. */
  datatype LoginResult = NoAccount | Succeeded | Failed | UndefinedRecord

  /** `login_user` of src/login_system.c once the two words are read: `file`
      is what `fopen(LOGIN_FILE, "rb")` opens, None when it fails. On a
      truncated record `strcmp` still reads a defined name, and when it
      differs `&&` never reaches the `memcmp` of the incomplete digest. */
  function CheckLogin(e: Entered, file: Option<seq<byte>>, h: Hasher): (r: LoginResult)
    ensures r == NoAccount <==> file.None?
    ensures r == Succeeded ==> file.Some? && DecodeRecord(file.value).Ok?
    ensures r == UndefinedRecord ==> file.Some? && DecodeRecord(file.value).Err?
  {
    match file
    case None => NoAccount
    case Some(bytes) =>
      match DecodeRecord(bytes)
      case Err(Truncated(name)) => if Strcmp(e.username, name) != 0 then Failed else UndefinedRecord
      case Err(_) => UndefinedRecord
      case Ok(s) => if Accepts(e, s, h) then Succeeded else Failed
  }

  /** Login succeeds exactly when the file holds a complete record whose
      username is the entered one and whose digest is that of the entered
      password; a missing file never lets anyone in. */
  lemma CheckLoginSucceedsIff(e: Entered, file: Option<seq<byte>>, h: Hasher)
    ensures CheckLogin(e, file, h) == Succeeded <==>
              file.Some? && DecodeRecord(file.value).Ok? &&
              CStr(e.username) == CStr(DecodeRecord(file.value).value.name) &&
              h(CStr(e.password)) == DecodeRecord(file.value).value.digest
  {
  }

  /** Login is rejected exactly when the file opens, its length field is
      readable and in 0..49, and either the name `fread` put in `stored_user`
      differs from the entered username, or the record is complete and the
      password's digest differs from the stored one. */
  lemma CheckLoginFailsIff(e: Entered, file: Option<seq<byte>>, h: Hasher)
    ensures CheckLogin(e, file, h) == Failed <==>
              file.Some? && IntSize <= |file.value| &&
              var n := IntFromBytes(file.value[..IntSize]);
              var stop := if |file.value| < IntSize + n then |file.value| else IntSize + n;
              0 <= n < MaxUser &&
              (CStr(e.username) != CStr(file.value[IntSize..stop]) ||
               (IntSize + n + DigestSize <= |file.value| &&
                h(CStr(e.password)) != file.value[IntSize + n..IntSize + n + DigestSize]))
  {
  }

  /** A record cut short after a length of 1 and the name "a" is still
      rejected for the username "b": the names differ, so the missing digest
      is never compared. */
  lemma TruncatedRecordRejects(h: Hasher)
    ensures CheckLogin(Entered([98], [98]), Some(IntBytes(1) + [97]), h) == Failed
  {
    IntBytesRoundTrip(1);
    assert (IntBytes(1) + [97])[..IntSize] == IntBytes(1);
  }

  /** `register_user` of src/login_system.c once the two words are read: the
      login file afterwards. `canCreate` says whether
      `fopen(LOGIN_FILE, "wb")` succeeds; when it does not, nothing is
      written, otherwise the file is replaced by one record holding the
      `strlen(username)` bytes of the username and the digest of the
      `strlen(password)` bytes of the password. */
  function RegisterUser(e: Entered, file: Option<seq<byte>>, canCreate: bool, h: Hasher): (r: Option<seq<byte>>)
    requires |e.username| < MaxUser
    ensures !canCreate ==> r == file
    ensures canCreate ==> r == Some(EncodeRecord(CStr(e.username), h(CStr(e.password))))
    ensures canCreate ==> r.Some? && DecodeRecord(r.value) == Ok(Stored(CStr(e.username), h(CStr(e.password))))
  {
    if !canCreate then file
    else
      var u := CStr(e.username);
      DecodeEncode(u, h(CStr(e.password)), []);
      assert EncodeRecord(u, h(CStr(e.password))) + [] == EncodeRecord(u, h(CStr(e.password)));
      Some(EncodeRecord(u, h(CStr(e.password))))
  }

  /** Registering a username and password and then logging in with the same
      two words succeeds: both sides digest the same bytes with the same
      function. */
  lemma RegisterThenLogin(e: Entered, file: Option<seq<byte>>, h: Hasher)
    requires IsWord(e.username)
    ensures CheckLogin(e, RegisterUser(e, file, true, h), h) == Succeeded
  {
    CheckLoginSucceedsIff(e, RegisterUser(e, file, true, h), h);
    CStrIdempotent(e.username);
  }

  lemma CStrIdempotent(s: seq<byte>)
    ensures CStr(CStr(s)) == CStr(s)
  {
    CStrOfNoNul(CStr(s));
  }

  /** Registration overwrites: after registering e1 and then e2, a login
      attempt e succeeds exactly when it matches e2's username and password
      digest, whatever e1 was. */
  lemma RegisterOverwrites(e1: Entered, e2: Entered, e: Entered, file: Option<seq<byte>>, h: Hasher)
    requires |e1.username| < MaxUser && |e2.username| < MaxUser
    ensures var after := RegisterUser(e2, RegisterUser(e1, file, true, h), true, h);
            CheckLogin(e, after, h) == Succeeded <==>
              CStr(e.username) == CStr(e2.username) && h(CStr(e.password)) == h(CStr(e2.password))
  {
    var after := RegisterUser(e2, RegisterUser(e1, file, true, h), true, h);
    CheckLoginSucceedsIff(e, after, h);
    CStrIdempotent(e2.username);
  }

  /** A registration that cannot open the file changes nothing: whoever
      could log in before still can, and nobody else. */
  lemma FailedRegisterKeepsLogin(e1: Entered, e: Entered, file: Option<seq<byte>>, h: Hasher)
    requires |e1.username| < MaxUser
    ensures CheckLogin(e, RegisterUser(e1, file, false, h), h) == CheckLogin(e, file, h)
  {
  }
}
