/** The Argon2id hash text, the limits checked before it is decoded, and the password policy. */
module Passwords {
  import opened Wrappers
  import opened Base64
  import opened Scanners

  const MAX_HASH_BYTES := 256
  const MAX_MEMORY_KIB := 256 * 1024
  const MAX_ITERATIONS := 6
  const MAX_PARALLELISM := 16
  const MAX_WORK_KIB := 512 * 1024
  const MAX_SALT_BYTES := 64
  const MAX_KEY_BYTES := 64
  const ARGON_VERSION := 19

  datatype Params = Params(memory: nat, iterations: nat, parallelism: nat, saltLength: nat, keyLength: nat)

  datatype Passwords = Passwords(minBytes: int, maxBytes: int, params: Params)

  datatype Error = TooShort | TooLong | UnsafeHash | Malformed | InvalidPolicy

  /** `validateArgonParams`; memory and iterations are 32 bits wide, so their product fits 64. */
  predicate ParamsOk(p: Params) {
    && 0 < p.memory <= MAX_MEMORY_KIB && 0 < p.iterations <= MAX_ITERATIONS && 0 < p.parallelism <= MAX_PARALLELISM
    && p.memory * p.iterations <= MAX_WORK_KIB
    && 16 <= p.saltLength <= MAX_SALT_BYTES && 16 <= p.keyLength <= MAX_KEY_BYTES
  }

  function Defaulted(c: Passwords): Passwords {
    Passwords(if c.minBytes == 0 then 12 else c.minBytes,
              if c.maxBytes == 0 then 1024 else c.maxBytes,
              if c.params == Params(0, 0, 0, 0, 0) then Params(64 * 1024, 3, 2, 16, 32) else c.params)
  }

  function NewPasswords(config: Passwords): Result<Passwords, Error> {
    var c := Defaulted(config);
    if c.minBytes < 1 || c.maxBytes < c.minBytes then Err(InvalidPolicy)
    else if !ParamsOk(c.params) then Err(UnsafeHash)
    else Ok(c)
  }

  /** What NewPasswords returns. */
  predicate Admitted(p: Passwords) {
    1 <= p.minBytes <= p.maxBytes && ParamsOk(p.params)
  }

  /** The defaults for zero values, and the limits of a policy, in numbers. */
  lemma PolicyInNumbers(c: Passwords)
    ensures NewPasswords(Passwords(0, 0, Params(0, 0, 0, 0, 0))) == Ok(Passwords(12, 1024, Params(65536, 3, 2, 16, 32)))
    ensures NewPasswords(c).Ok? ==>
              && NewPasswords(c).value.minBytes == (if c.minBytes == 0 then 12 else c.minBytes)
              && NewPasswords(c).value.maxBytes == (if c.maxBytes == 0 then 1024 else c.maxBytes)
              && NewPasswords(c).value.params == (if c.params == Params(0, 0, 0, 0, 0) then Params(65536, 3, 2, 16, 32) else c.params)
              && 1 <= NewPasswords(c).value.minBytes <= NewPasswords(c).value.maxBytes && WithinLimits(NewPasswords(c).value.params)
    ensures c.minBytes < 0 || (c.maxBytes != 0 && c.maxBytes < (if c.minBytes == 0 then 12 else c.minBytes)) ==> NewPasswords(c) == Err(InvalidPolicy)
  {
    LimitsInNumbers(Defaulted(c).params);
  }

  /** The Argon2 costs that may be used, in numbers: KiB of memory, passes, lanes and bytes. */
  predicate WithinLimits(p: Params) {
    && 1 <= p.memory <= 262144 && 1 <= p.iterations <= 6 && 1 <= p.parallelism <= 16
    && p.memory * p.iterations <= 524288
    && 16 <= p.saltLength <= 64 && 16 <= p.keyLength <= 64
  }

  lemma LimitsInNumbers(p: Params)
    ensures ParamsOk(p) <==> WithinLimits(p)
  {
  }

  /** Admitted policies are the results of NewPasswords, and its fixed points. */
  lemma AdmittedIff(p: Passwords)
    ensures Admitted(p) <==> NewPasswords(p) == Ok(p)
    ensures Admitted(p) <==> exists config :: NewPasswords(config) == Ok(p)
  {
    if Admitted(p) {
      assert NewPasswords(p) == Ok(p);
    }
  }

  // ------------------------------------------------------------------ decimals

  function Pow10(k: nat): nat { if k == 0 then 1 else 10 * Pow10(k - 1) }

  lemma {:induction false} DecimalWidth(n: nat, k: nat)
    requires k >= 1 && n < Pow10(k)
    ensures |Decimal(n)| <= k
  {
    if n >= 10 {
      assert Pow10(0) == 1;
      DecimalWidth(n / 10, k - 1);
    }
  }

  // ------------------------------------------------------------------ the hash text

  /** The text argon2id.CreateHash builds from a salt and a key. */
  function Encoded(p: Params, salt: seq<Byte>, key: seq<Byte>): string {
    Join(Fields(p, salt, key))
  }

  function Fields(p: Params, salt: seq<Byte>, key: seq<Byte>): seq<string> {
    ["", "argon2id", VersionField(), CostField(p), Encode(salt), Encode(key)]
  }

  /** The fields with dollar signs between them. */
  function Join(fields: seq<string>): string {
    if fields == [] then ""
    else if |fields| == 1 then fields[0]
    else fields[0] + "$" + Join(fields[1..])
  }

  function VersionField(): string { "v=" + Decimal(ARGON_VERSION) }

  function CostField(p: Params): string {
    "m=" + Decimal(p.memory) + (",t=" + Decimal(p.iterations) + (",p=" + Decimal(p.parallelism)))
  }

  /** strings.Split at dollar signs. */
  function Split(s: string): seq<string> {
    if s == "" then [""]
    else if s[0] == '$' then [""] + Split(s[1..])
    else
      var rest := Split(s[1..]);
      [[s[0]] + rest[0]] + rest[1..]
  }

  lemma {:induction false} SplitField(field: string, rest: string)
    requires '$' !in field
    ensures Split(field + "$" + rest) == [field] + Split(rest)
  {
    if field == "" {
      assert "" + "$" + rest == "$" + rest;
      assert ("$" + rest)[1..] == rest;
    } else {
      var text := field + "$" + rest;
      SplitField(field[1..], rest);
      assert text[1..] == field[1..] + "$" + rest;
      assert text[0] == field[0] && field[0] in field;
      assert [field[0]] + field[1..] == field;
    }
  }

  lemma {:induction false} SplitLast(field: string)
    requires '$' !in field
    ensures Split(field) == [field]
  {
    if field != "" {
      assert field[0] in field;
      SplitLast(field[1..]);
      assert [field[0]] + field[1..] == field;
    }
  }

  lemma {:induction false} SplitJoin(fields: seq<string>)
    requires fields != [] && forall k :: 0 <= k < |fields| ==> '$' !in fields[k]
    ensures Split(Join(fields)) == fields
  {
    if |fields| == 1 {
      SplitLast(fields[0]);
    } else {
      SplitJoin(fields[1..]);
      SplitField(fields[0], Join(fields[1..]));
    }
  }

  /** How many bytes of a UTF-8 encoded space start at `i`. */
  function SpaceWidth(s: string, i: nat): (width: nat)
    ensures i + width <= |s| || width == 0
  {
    if i < |s| && ('\t' <= s[i] <= '\r' || s[i] == ' ') then 1
    else if i + 1 < |s| && s[i] == '\U{C2}' && (s[i + 1] == '\U{85}' || s[i + 1] == '\U{A0}') then 2
    else if i + 2 < |s| && WideSpace(s[i], s[i + 1], s[i + 2]) then 3
    else 0
  }

  /** U+1680, U+2000 to U+200A, U+2028, U+2029, U+202F, U+205F and U+3000. */
  predicate WideSpace(a: char, b: char, c: char) {
    || (a == '\U{E1}' && b == '\U{9A}' && c == '\U{80}')
    || (a == '\U{E2}' && b == '\U{80}' && ('\U{80}' <= c <= '\U{8A}' || c == '\U{A8}' || c == '\U{A9}' || c == '\U{AF}'))
    || (a == '\U{E2}' && b == '\U{81}' && c == '\U{9F}')
    || (a == '\U{E3}' && b == '\U{80}' && c == '\U{80}')
  }

  /** Sscanf skips spaces before a number; a newline there is an error. */
  function SkipSpace(s: string, i: nat): (end: Option<nat>)
    requires i <= |s|
    ensures end.Some? ==> i <= end.value <= |s|
    decreases |s| - i
  {
    if SpaceWidth(s, i) == 0 then Some(i)
    else if s[i] == '\n' then None
    else SkipSpace(s, i + SpaceWidth(s, i))
  }

  /** One literal and one unsigned %d of a Sscanf format, and what follows them. */
  function ScanField(s: string, prefix: string, limit: nat): Option<(nat, string)> {
    if !(prefix <= s) || SkipSpace(s, |prefix|).None? then None
    else ScanDigits(s, SkipSpace(s, |prefix|).value, limit)
  }

  function ScanDigits(s: string, start: nat, limit: nat): Option<(nat, string)>
    requires start <= |s|
  {
    var end := DigitsEnd(s, start);
    if end == start || DecimalValue(s[start..end]) > limit then None
    else Some((DecimalValue(s[start..end]), s[end..]))
  }

  /** "v=%d" into an int, which may have a sign; whether it scans the supported version. */
  predicate ScansVersion(s: string) {
    && "v=" <= s && SkipSpace(s, 2).Some?
    && var start := SkipSpace(s, 2).value;
       if start < |s| && s[start] == '-' then false
       else
         var number := ScanDigits(s, if start < |s| && s[start] == '+' then start + 1 else start, MAX_INT);
         number.Some? && number.value.0 == ARGON_VERSION
  }

  const MAX_UINT32 := 0xFFFF_FFFF
  const MAX_UINT8 := 0xFF

  datatype Decoded = Decoded(params: Params, salt: seq<Byte>, key: seq<Byte>)

  /** The decoder skips line breaks. */
  function DecodeField(s: string): Option<seq<Byte>> {
    Decode(WithoutBreaks(s))
  }

  function WithoutBreaks(s: string): string {
    if s == "" then "" else (if s[0] == '\n' || s[0] == '\r' then "" else [s[0]]) + WithoutBreaks(s[1..])
  }

  /** argon2id.DecodeHash. */
  function DecodeParts(parts: seq<string>): Option<Decoded> {
    if |parts| != 6 || parts[1] != "argon2id" then None
    else if !ScansVersion(parts[2]) then None
    else
      var cost := DecodeCost(parts[3]);
      var salt, key := DecodeField(parts[4]), DecodeField(parts[5]);
      if cost.None? || salt.None? || key.None? then None
      else
        var (m, t, p) := cost.value;
        Some(Decoded(Params(m, t, p, |salt.value|, |key.value|), salt.value, key.value))
  }

  /** Sscanf with "m=%d,t=%d,p=%d"; text after the last number is ignored. */
  function DecodeCost(s: string): Option<(nat, nat, nat)> {
    var m := ScanField(s, "m=", MAX_UINT32);
    if m.None? then None
    else
      var t := ScanField(m.value.1, ",t=", MAX_UINT32);
      if t.None? then None
      else
        var p := ScanField(t.value.1, ",p=", MAX_UINT8);
        if p.None? then None else Some((m.value.0, t.value.0, p.value.0))
  }

  /** `preflightHash`. */
  predicate PreflightOk(hash: string) {
    && |hash| <= MAX_HASH_BYTES
    && var parts := Split(hash);
       |parts| != 6 || (|parts[4]| <= EncodedLen(MAX_SALT_BYTES) && |parts[5]| <= EncodedLen(MAX_KEY_BYTES))
  }

  /** `decodeHash`, with the salt and key that the comparison decodes again. */
  function DecodeHash(hash: string): Result<Decoded, Error> {
    if !PreflightOk(hash) then Err(UnsafeHash)
    else match DecodeParts(Split(hash))
         case None => Err(Malformed)
         case Some(decoded) => if ParamsOk(decoded.params) then Ok(decoded) else Err(UnsafeHash)
  }

  lemma {:induction false} BreaksShrink(s: string)
    ensures |WithoutBreaks(s)| <= |s|
    ensures InAlphabet(s) ==> WithoutBreaks(s) == s
  {
    if s != "" {
      BreaksShrink(s[1..]);
      assert s == [s[0]] + s[1..];
      assert InAlphabet(s) ==> Value(s[0]) >= 0 && InAlphabet(s[1..]);
    }
  }

  /**
   Which texts are verified at all: those of at most 256 bytes with salt and key fields of at
   most 86, that decode to costs within the limits.
   */
  lemma DecodedWithinLimits(hash: string)
    ensures DecodeHash(hash).Ok? <==>
            && |hash| <= 256 && DecodeParts(Split(hash)).Some?
            && |Split(hash)[4]| <= 86 && |Split(hash)[5]| <= 86
            && WithinLimits(DecodeParts(Split(hash)).value.params)
    ensures DecodeHash(hash).Ok? ==> DecodeHash(hash).value == DecodeParts(Split(hash)).value
    ensures DecodeHash(hash).Err? ==> DecodeHash(hash).error == if PreflightOk(hash) && DecodeParts(Split(hash)).None? then Malformed else UnsafeHash
  {
    if DecodeParts(Split(hash)).Some? {
      LimitsInNumbers(DecodeParts(Split(hash)).value.params);
    }
  }

  /** What passes the preflight decodes to no more bytes than the limits allow. */
  lemma PreflightBoundsDecoding(hash: string)
    requires PreflightOk(hash) && DecodeParts(Split(hash)).Some?
    ensures |DecodeParts(Split(hash)).value.salt| <= MAX_SALT_BYTES
    ensures |DecodeParts(Split(hash)).value.key| <= MAX_KEY_BYTES
  {
    var parts := Split(hash);
    FieldBound(parts[4]);
    FieldBound(parts[5]);
  }

  lemma FieldBound(field: string)
    requires |field| <= EncodedLen(64) && DecodeField(field).Some?
    ensures |DecodeField(field).value| <= 64
  {
    BreaksShrink(field);
    EncodeDecode(WithoutBreaks(field));
    EncodeLength(DecodeField(field).value);
  }

  // ------------------------------------------------------------------ round trip

  /** A printed number and something that does not start with a digit scan back. */
  lemma ScanPrinted(prefix: string, n: nat, limit: nat, rest: string)
    requires n <= limit && (rest == "" || !IsDigit(rest[0]))
    ensures var s := prefix + Decimal(n) + rest;
            && prefix <= s && SkipSpace(s, |prefix|) == Some(|prefix|) && IsDigit(s[|prefix|])
            && ScanDigits(s, |prefix|, limit) == Some((n, rest))
    ensures ScanField(prefix + Decimal(n) + rest, prefix, limit) == Some((n, rest))
  {
    DecimalRoundTrip(n);
    var s := prefix + Decimal(n) + rest;
    var end := |prefix| + |Decimal(n)|;
    assert s[|prefix|..end] == Decimal(n) && s[end..] == rest;
    assert forall k :: |prefix| <= k < end ==> s[k] == Decimal(n)[k - |prefix|];
    assert end < |s| ==> s[end] == rest[0];
    assert DigitsEnd(s, |prefix|) == end;
  }

  lemma CostRoundTrip(p: Params)
    requires ParamsOk(p)
    ensures DecodeCost(CostField(p)) == Some((p.memory, p.iterations, p.parallelism))
  {
    var third := ",p=" + Decimal(p.parallelism);
    var second := ",t=" + Decimal(p.iterations) + third;
    ScanPrinted("m=", p.memory, MAX_UINT32, second);
    ScanPrinted(",t=", p.iterations, MAX_UINT32, third);
    ScanPrinted(",p=", p.parallelism, MAX_UINT8, "");
    assert CostField(p) == "m=" + Decimal(p.memory) + second;
    assert third == ",p=" + Decimal(p.parallelism) + "";
  }

  lemma NoDollar(s: string)
    requires InAlphabet(s) || forall k :: 0 <= k < |s| ==> IsDigit(s[k])
    ensures '$' !in s
  {
  }

  lemma FieldsHaveNoDollar(p: Params, bytes: seq<Byte>)
    ensures '$' !in VersionField() && '$' !in CostField(p) && '$' !in Encode(bytes)
  {
    DecimalRoundTrip(ARGON_VERSION);
    DecimalRoundTrip(p.memory);
    DecimalRoundTrip(p.iterations);
    DecimalRoundTrip(p.parallelism);
    NoDollar(Decimal(ARGON_VERSION));
    NoDollar(Decimal(p.memory));
    NoDollar(Decimal(p.iterations));
    NoDollar(Decimal(p.parallelism));
    EncodeAlphabet(bytes);
    NoDollar(Encode(bytes));
  }

  lemma EncodedParts(p: Params, salt: seq<Byte>, key: seq<Byte>)
    ensures Split(Encoded(p, salt, key)) == Fields(p, salt, key)
  {
    FieldsHaveNoDollar(p, salt);
    FieldsHaveNoDollar(p, key);
    SplitJoin(Fields(p, salt, key));
  }

  lemma {:induction false} JoinLength(fields: seq<string>, bounds: seq<nat>)
    requires |bounds| == |fields| >= 1 && forall k :: 0 <= k < |fields| ==> |fields[k]| <= bounds[k]
    ensures |Join(fields)| <= Total(bounds) + |fields| - 1
  {
    if |fields| > 1 {
      JoinLength(fields[1..], bounds[1..]);
    }
  }

  function Total(bounds: seq<nat>): nat {
    if bounds == [] then 0 else bounds[0] + Total(bounds[1..])
  }

  lemma CostLength(p: Params)
    requires ParamsOk(p)
    ensures |VersionField()| <= 4 && |CostField(p)| <= 17
  {
    assert Pow10(0) == 1 && Pow10(1) == 10 && Pow10(2) == 100 && Pow10(3) == 1000;
    assert Pow10(6) == 1000 * Pow10(3);
    DecimalWidth(ARGON_VERSION, 2);
    DecimalWidth(p.memory, 6);
    DecimalWidth(p.iterations, 1);
    DecimalWidth(p.parallelism, 2);
  }

  lemma EncodedLength(p: Params, salt: seq<Byte>, key: seq<Byte>)
    requires ParamsOk(p) && |salt| == p.saltLength && |key| == p.keyLength
    ensures |Encoded(p, salt, key)| <= 206
  {
    CostLength(p);
    EncodeLength(salt);
    EncodeLength(key);
    var bounds := [0, 8, 4, 17, 86, 86];
    assert Total(bounds[5..]) == 86;
    assert Total(bounds[3..]) == 17 + 86 + Total(bounds[5..]);
    assert Total(bounds) == 12 + Total(bounds[3..]);
    JoinLength(Fields(p, salt, key), bounds);
  }

  lemma VersionRoundTrip()
    ensures ScansVersion(VersionField())
  {
    ScanPrinted("v=", ARGON_VERSION, MAX_INT, "");
    assert VersionField() == "v=" + Decimal(ARGON_VERSION) + "";
  }

  /** Nothing but version 19 of Argon2id is decoded. */
  lemma OtherVariantsRefused(parts: seq<string>, version: nat)
    requires version <= MAX_INT && |parts| == 6
    ensures parts[1] != "argon2id" || (parts[2] == "v=" + Decimal(version) && version != 19) ==> DecodeParts(parts).None?
  {
    ScanPrinted("v=", version, MAX_INT, "");
    assert "v=" + Decimal(version) + "" == "v=" + Decimal(version);
  }

  lemma PartsDecode(parts: seq<string>, cost: (nat, nat, nat), salt: seq<Byte>, key: seq<Byte>)
    requires |parts| == 6 && parts[1] == "argon2id" && ScansVersion(parts[2]) && DecodeCost(parts[3]) == Some(cost)
    requires DecodeField(parts[4]) == Some(salt) && DecodeField(parts[5]) == Some(key)
    ensures DecodeParts(parts) == Some(Decoded(Params(cost.0, cost.1, cost.2, |salt|, |key|), salt, key))
  {
  }

  lemma PartsRoundTrip(parts: seq<string>, p: Params, salt: seq<Byte>, key: seq<Byte>)
    requires ParamsOk(p) && |salt| == p.saltLength && |key| == p.keyLength
    requires |parts| == 6 && parts[1] == "argon2id" && parts[2] == VersionField() && parts[3] == CostField(p)
    requires parts[4] == Encode(salt) && parts[5] == Encode(key)
    ensures DecodeParts(parts) == Some(Decoded(p, salt, key))
  {
    CostRoundTrip(p);
    VersionRoundTrip();
    FieldRoundTrip(salt);
    FieldRoundTrip(key);
    PartsDecode(parts, (p.memory, p.iterations, p.parallelism), salt, key);
  }

  /**
   The hash of every admitted profile has six parts, fits the limits, and decodes to
   exactly that profile, salt and key.
   */
  lemma HashRoundTrip(p: Params, salt: seq<Byte>, key: seq<Byte>)
    requires ParamsOk(p) && |salt| == p.saltLength && |key| == p.keyLength
    ensures |Split(Encoded(p, salt, key))| == 6 && |Encoded(p, salt, key)| <= MAX_HASH_BYTES
    ensures DecodeHash(Encoded(p, salt, key)) == Ok(Decoded(p, salt, key))
  {
    EncodedParts(p, salt, key);
    EncodedLength(p, salt, key);
    EncodeLength(salt);
    EncodeLength(key);
    PartsRoundTrip(Fields(p, salt, key), p, salt, key);
  }

  lemma FieldRoundTrip(bytes: seq<Byte>)
    ensures DecodeField(Encode(bytes)) == Some(bytes)
  {
    EncodeAlphabet(bytes);
    BreaksShrink(Encode(bytes));
    DecodeEncode(bytes);
  }

  // ------------------------------------------------------------------ the operations

  /** Argon2id, of which only the length of its result matters. */
  type Kdf = (string, seq<Byte>, Params) -> seq<Byte>

  ghost predicate IsKdf(kdf: Kdf) {
    forall password, salt, p :: |kdf(password, salt, p)| == p.keyLength
  }

  function Hash(p: Passwords, password: string, salt: seq<Byte>, kdf: Kdf): Result<string, Error> {
    if |password| < p.minBytes then Err(TooShort)
    else if |password| > p.maxBytes then Err(TooLong)
    else Ok(Encoded(p.params, salt, kdf(password, salt, p.params)))
  }

  function NeedsRehash(p: Passwords, hash: string): Result<bool, Error> {
    match DecodeHash(hash)
    case Err(e) => Err(e)
    case Ok(decoded) => Ok(decoded.params != p.params)
  }

  datatype Verification = Verification(matched: bool, needsRehash: bool)

  function VerifyWithRehash(p: Passwords, hash: string, password: string, kdf: Kdf): Result<Verification, Error> {
    if |password| > p.maxBytes then Err(TooLong)
    else match DecodeHash(hash)
         case Err(e) => Err(e)
         case Ok(decoded) =>
           var matched := kdf(password, decoded.salt, decoded.params) == decoded.key;
           Ok(Verification(matched, matched && decoded.params != p.params))
  }

  /**
   Stored hashes, whoever wrote them.  A text is verified, or compared with the profile, only
   within the limits.  Every other text gives the same error whatever Argon2id does, so its
   costs are never paid.
   */
  lemma OnlySafeHashesAreVerified(p: Passwords, hash: string, password: string, kdf: Kdf)
    ensures NeedsRehash(p, hash).Ok? <==>
            && |hash| <= 256 && DecodeParts(Split(hash)).Some?
            && |Split(hash)[4]| <= 86 && |Split(hash)[5]| <= 86
            && WithinLimits(DecodeParts(Split(hash)).value.params)
    ensures VerifyWithRehash(p, hash, password, kdf).Ok? <==> NeedsRehash(p, hash).Ok? && |password| <= p.maxBytes
    ensures NeedsRehash(p, hash).Err? || |password| > p.maxBytes ==>
              forall other: Kdf :: VerifyWithRehash(p, hash, password, other) == VerifyWithRehash(p, hash, password, kdf)
    ensures NeedsRehash(p, hash).Ok? ==> (NeedsRehash(p, hash).value <==> DecodeParts(Split(hash)).value.params != p.params)
  {
    DecodedWithinLimits(hash);
  }

  /** A password is hashed exactly when its length is within the policy. */
  lemma HashedExactly(p: Passwords, password: string, salt: seq<Byte>, kdf: Kdf)
    requires Admitted(p)
    ensures Hash(p, password, salt, kdf).Ok? <==> p.minBytes <= |password| <= p.maxBytes
    ensures |password| < p.minBytes ==> Hash(p, password, salt, kdf) == Err(TooShort)
    ensures |password| > p.maxBytes ==> Hash(p, password, salt, kdf) == Err(TooLong)
  {
  }

  lemma JoinSix(a: string, b: string, c: string, d: string, e: string, f: string)
    ensures Join([a, b, c, d, e, f]) == a + "$" + (b + "$" + (c + "$" + (d + "$" + (e + "$" + f))))
  {
    assert [a, b, c, d, e, f][1..] == [b, c, d, e, f] && [b, c, d, e, f][1..] == [c, d, e, f];
    assert [c, d, e, f][1..] == [d, e, f] && [d, e, f][1..] == [e, f] && [e, f][1..] == [f];
    assert Join([e, f]) == e + "$" + f && Join([d, e, f]) == d + "$" + (e + "$" + f);
    assert Join([c, d, e, f]) == c + "$" + Join([d, e, f]) && Join([b, c, d, e, f]) == b + "$" + Join([c, d, e, f]);
  }

  lemma DefaultCostText()
    ensures CostField(Params(65536, 3, 2, 16, 32)) == "m=65536,t=3,p=2" && VersionField() == "v=19"
  {
    assert Decimal(6) == "6" && Decimal(65) == "65" && Decimal(655) == "655" && Decimal(6553) == "6553" && Decimal(65536) == "65536";
    assert Decimal(1) == "1" && Decimal(19) == "19" && Decimal(3) == "3" && Decimal(2) == "2";
    assert "m=65536" + (",t=3" + ",p=2") == "m=65536,t=3,p=2";
  }

  /** The text itself, for the default profile. */
  lemma DefaultHashText(salt: seq<Byte>, key: seq<Byte>)
    ensures Encoded(Params(65536, 3, 2, 16, 32), salt, key) ==
            "" + "$" + ("argon2id" + "$" + ("v=19" + "$" + ("m=65536,t=3,p=2" + "$" + (Encode(salt) + "$" + Encode(key)))))
  {
    DefaultCostText();
    JoinSix("", "argon2id", "v=19", "m=65536,t=3,p=2", Encode(salt), Encode(key));
  }

  /**
   A hash made by one instance, seen by any other: it asks for a rehash exactly when the
   profiles differ, and a password within the other's limit matches exactly when it
   derives the same key.
   */
  lemma HashSeenByOthers(maker: Passwords, other: Passwords, password: string, candidate: string, salt: seq<Byte>, kdf: Kdf)
    requires Admitted(maker) && Admitted(other) && IsKdf(kdf) && |salt| == maker.params.saltLength
    requires maker.minBytes <= |password| <= maker.maxBytes && |candidate| <= other.maxBytes
    ensures var hash := Hash(maker, password, salt, kdf);
            var same := kdf(candidate, salt, maker.params) == kdf(password, salt, maker.params);
            && hash.Ok?
            && NeedsRehash(other, hash.value) == Ok(maker.params != other.params)
            && VerifyWithRehash(other, hash.value, candidate, kdf) == Ok(Verification(same, same && maker.params != other.params))
  {
    HashRoundTrip(maker.params, salt, kdf(password, salt, maker.params));
  }
}
