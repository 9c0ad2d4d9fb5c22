/** The records and enums that cross the FFI, field by field in wire order. */
module FfiTypes {
  import opened ByteOrder
  import opened FfiCodec
  import opened Unicode

  const U8 := Unsigned(1)
  const U32 := Unsigned(4)
  const U64 := Unsigned(8)
  const I64 := Signed(8)

  const ARK_OWNERSHIP_PROOF := Record([Field("message", Text), Field("signature", Text), Field("pubkey", Text)])

  const ARK_METHOD := Record([
    Field("label", Text), Field("server", Text), Field("pubkey", Text),
    Field("vtxoPointer", Optional(Text)), Field("opaqueUri", Optional(Text)),
    Field("proof", Optional(ARK_OWNERSHIP_PROOF)), Field("expiresAt", Optional(I64))])

  const FEE_ESTIMATE := Record([
    Field("fastestFee", U64), Field("halfHourFee", U64), Field("hourFee", U64),
    Field("economyFee", U64), Field("minimumFee", U64)])

  const IDENTITY := Record([Field("pubkeyHex", Text), Field("secretKeyHex", Text), Field("fingerprint", Text)])

  const INVITE := Record([
    Field("aliasHash", Text), Field("amountSats", U64), Field("createdAt", I64), Field("expiresAt", I64),
    Field("claimUrl", Text), Field("warning", Text),
    Field("senderSignature", Optional(Text)), Field("senderPubkey", Optional(Text))])

  const INVITE_STATUS := Enum([
    Case("created", []), Case("emailSent", []), Case("claimedWithPublicProfile", []),
    Case("expired", []), Case("cancelled", [])])

  const INVITE_RECORD := Record([
    Field("inviteId", Text), Field("identifierHash", Text), Field("displayHint", Text), Field("amountSats", U64),
    Field("memo", Optional(Text)), Field("senderFingerprint", Text), Field("status", INVITE_STATUS),
    Field("createdAt", I64), Field("expiresAt", I64)])

  const KEY_ROTATION := Record([
    Field("previousPubkey", Text), Field("newPubkey", Text),
    Field("authorizationSignature", Text), Field("rotatedAt", I64)])

  const LIGHTNING_METHOD := Record([
    Field("label", Text), Field("lightningAddress", Optional(Text)), Field("lnurl", Optional(Text)),
    Field("bolt12", Optional(Text)), Field("receiverPubkey", Optional(Text))])

  const METHOD_VERIFICATION := Record([
    Field("methodDescriptor", Text), Field("proofType", Text), Field("proofData", Text), Field("verifiedAt", I64)])

  const ONCHAIN_METHOD := Record([
    Field("label", Text), Field("network", Text), Field("address", Optional(Text)),
    Field("silentPaymentPubkey", Optional(Text)), Field("pubkeyHint", Optional(Text)),
    Field("descriptorHint", Optional(Text)), Field("addressList", Sequence(Text))])

  const PAYMENT_METHOD := Enum([
    Case("onchain", [Field("method", ONCHAIN_METHOD)]),
    Case("lightning", [Field("method", LIGHTNING_METHOD)]),
    Case("ark", [Field("method", ARK_METHOD)])])

  const PAYMENT_PROFILE := Record([
    Field("alias", Text), Field("identityPubkey", Text), Field("methods", Sequence(PAYMENT_METHOD)),
    Field("updatedAt", I64), Field("expiresAt", Optional(I64)), Field("sequence", Optional(U64)),
    Field("preferences", Sequence(Text)), Field("nonce", Optional(Text)),
    Field("rotation", Optional(KEY_ROTATION)), Field("methodVerifications", Sequence(METHOD_VERIFICATION))])

  const SIGNED_PAYMENT_PROFILE := Record([Field("profile", PAYMENT_PROFILE), Field("signature", Text)])

  const QUOTE_RECIPIENT := Record([
    Field("alias", Text), Field("verified", Bool), Field("profileSignatureVerified", Bool),
    Field("identifierVerified", Bool), Field("identifierVerification", Text), Field("fingerprint", Text)])

  const QUOTE_REQUEST := Record([
    Field("recipient", Text), Field("amountSats", U64), Field("signedProfile", SIGNED_PAYMENT_PROFILE),
    Field("urgency", Text), Field("maxFeeSats", Optional(U64)), Field("maxFeePercent", Optional(Bits64))])

  const EXECUTION_MODE := Enum([
    Case("preview", []), Case("mainnetPreview", []), Case("testnetExperimental", []), Case("manualWallet", [])])

  const ROUTE_QUOTE := Record([
    Field("selectedMethod", PAYMENT_METHOD), Field("estimatedFeeSats", U64), Field("estimatedConfirmation", Text),
    Field("reason", Text), Field("execution", EXECUTION_MODE), Field("walletHint", Text)])

  const SPLIT_RECIPIENT := Record([Field("alias", Text), Field("percent", U8)])

  const SPLIT_PAYMENT_REQUEST := Record([
    Field("version", U32), Field("totalAmountSats", U64), Field("splits", Sequence(SPLIT_RECIPIENT)),
    Field("memo", Optional(Text))])

  const FFI_ERROR := Enum([
    Case("AliasNotFound", [Field("reason", Text)]), Case("CryptoError", [Field("reason", Text)]),
    Case("NetworkError", [Field("reason", Text)]), Case("InvalidInput", [Field("reason", Text)]),
    Case("Other", [Field("reason", Text)])])

  const QUOTE_RESPONSE := Enum([
    Case("ok", [
      Field("recipient", QUOTE_RECIPIENT), Field("selectedMethod", PAYMENT_METHOD), Field("feeSats", U64),
      Field("eta", Text), Field("reason", Text), Field("qr", Text),
      Field("execution", EXECUTION_MODE), Field("walletHint", Text)]),
    Case("notRegistered", [Field("invite", INVITE)]),
    Case("noRoute", [Field("reason", Text)]),
    Case("invalidSignature", [Field("recipient", QUOTE_RECIPIENT)])])

  ghost predicate Strict(s: Schema) { Sized(s) && !HasBool(s) }

  lemma {:induction false} StrictFields(fs: seq<Field>)
    requires forall i :: 0 <= i < |fs| ==> Strict(fs[i].schema)
    ensures FieldsSized(fs) && !FieldsHaveBool(fs)
  {
    if fs != [] {
      assert forall i :: 0 <= i < |fs| - 1 ==> fs[1..][i] == fs[i + 1];
      StrictFields(fs[1..]);
    }
  }

  lemma StrictLeaves()
    ensures Strict(Text) && Strict(U64) && Strict(I64) && Strict(Optional(Text)) && Strict(Optional(U64))
    ensures Strict(Optional(I64)) && Strict(Optional(Bits64)) && Strict(Sequence(Text))
  {
  }

  lemma StrictMethods()
    ensures Strict(ONCHAIN_METHOD) && Strict(LIGHTNING_METHOD) && Strict(ARK_METHOD)
  {
    StrictLeaves();
    hide Sized;
    hide HasBool;
    StrictRecord(ARK_OWNERSHIP_PROOF);
    StrictOptional(ARK_OWNERSHIP_PROOF);
    StrictRecord(ARK_METHOD);
    StrictRecord(LIGHTNING_METHOD);
    StrictRecord(ONCHAIN_METHOD);
  }

  lemma StrictRecord(s: Schema)
    requires s.Record? && forall i :: 0 <= i < |s.fields| ==> Strict(s.fields[i].schema)
    ensures Strict(s)
  {
    StrictFields(s.fields);
  }

  lemma StrictOptional(e: Schema)
    requires Strict(e)
    ensures Strict(Optional(e)) && Strict(Sequence(e))
  {
  }

  lemma StrictEnum(s: Schema)
    requires s.Enum? && |s.cases| < MAX_COUNT
    requires forall i :: 0 <= i < |s.cases| ==> Strict(Record(s.cases[i].fields))
    ensures Strict(s)
  {
  }

  lemma StrictPaymentMethod()
    ensures Strict(PAYMENT_METHOD)
  {
    StrictMethods();
    hide Sized;
    hide HasBool;
    forall i | 0 <= i < 3 ensures Strict(Record(PAYMENT_METHOD.cases[i].fields)) {
      StrictRecord(Record(PAYMENT_METHOD.cases[i].fields));
    }
    StrictEnum(PAYMENT_METHOD);
  }

  lemma StrictProfiles()
    ensures Strict(PAYMENT_PROFILE) && Strict(SIGNED_PAYMENT_PROFILE) && Strict(QUOTE_REQUEST)
  {
    StrictLeaves();
    StrictPaymentMethod();
    hide Sized;
    hide HasBool;
    StrictOptional(PAYMENT_METHOD);
    StrictRecord(KEY_ROTATION);
    StrictOptional(KEY_ROTATION);
    StrictRecord(METHOD_VERIFICATION);
    StrictOptional(METHOD_VERIFICATION);
    StrictRecord(PAYMENT_PROFILE);
    StrictRecord(SIGNED_PAYMENT_PROFILE);
    StrictRecord(QUOTE_REQUEST);
  }

  /** Profiles, signed profiles and quote requests lift exactly what they lower. */
  lemma StrictTypes()
    ensures Exact(PAYMENT_PROFILE) && Exact(SIGNED_PAYMENT_PROFILE) && Exact(QUOTE_REQUEST)
  {
    hide Exact;
    StrictProfiles();
    ExactWithoutBools(PAYMENT_PROFILE);
    ExactWithoutBools(SIGNED_PAYMENT_PROFILE);
    ExactWithoutBools(QUOTE_REQUEST);
  }

  // ---------- Quotes carry Bools ----------

  /** A recipient with one of its three flags set, that flag's byte being any other than 0 and 1: the buffer lifts to
    * the recipient, though no recipient is lowered to it.
    */
  lemma {:induction false} RecipientSecondBuffer(vs: seq<Value>, i: nat, k: byte)
    requires HaveTypes(vs, QUOTE_RECIPIENT.fields) && 1 <= i <= 3 && i < |vs| && vs[i] == Flag(true) && k > 1
    ensures var b := Misspelt(vs, QUOTE_RECIPIENT.fields, i, k);
            LiftBuffer(b, QUOTE_RECIPIENT) == Lift(List(vs)) &&
            forall v :: HasType(v, QUOTE_RECIPIENT) ==> Lower(v, QUOTE_RECIPIENT) != b
  {
    hide HaveTypes;
    hide Misspelt;
    hide LiftBuffer;
    hide Lower;
    hide HasType;
    TypesAligned(vs, QUOTE_RECIPIENT.fields);
    SecondBuffer(vs, QUOTE_RECIPIENT.fields, i, k);
  }

  /** The same inside the response for a profile whose signature does not hold. */
  lemma {:induction false} ResponseSecondBuffer(vs: seq<Value>, i: nat, k: byte)
    requires HaveTypes(vs, QUOTE_RECIPIENT.fields) && 1 <= i <= 3 && i < |vs| && vs[i] == Flag(true) && k > 1
    ensures var b := BigEndian(4, 4) + Misspelt(vs, QUOTE_RECIPIENT.fields, i, k);
            LiftBuffer(b, QUOTE_RESPONSE) == Lift(Variant(3, [List(vs)])) &&
            forall v :: HasType(v, QUOTE_RESPONSE) ==> Lower(v, QUOTE_RESPONSE) != b
  {
    var fs := QUOTE_RECIPIENT.fields;
    hide HaveTypes;
    TypesAligned(vs, fs);
    MisspeltReads(vs, fs, i, k, []);
    var m := Misspelt(vs, fs, i, k);
    assert m + [] == m;
    hide Misspelt;
    hide DecodeFields;
    hide EncodeFields;
    VariantSecondBuffer(QUOTE_RESPONSE.cases, 3, vs, m);
  }

  lemma {:induction false} NotExact(b: seq<byte>, s: Schema)
    requires LiftBuffer(b, s).Lift? && forall v :: HasType(v, s) ==> Lower(v, s) != b
    ensures !Exact(s)
  {
    hide LiftBuffer;
    hide HasType;
    hide Lower;
  }

  /** So quote buffers are not all lowered values; those that are, by `LiftIsExactIff`, have only 0 and 1 for flags. */
  lemma QuotesAreNotExact()
    ensures !Exact(QUOTE_RECIPIENT) && !Exact(QUOTE_RESPONSE)
  {
    hide HaveTypes;
    hide Misspelt;
    hide HasType;
    hide Lower;
    hide LiftBuffer;
    hide Exact;
    var vs := [Chars(""), Flag(true), Flag(false), Flag(false), Chars(""), Chars("")];
    EmptyRecipient(vs);
    RecipientSecondBuffer(vs, 1, 2);
    ResponseSecondBuffer(vs, 1, 2);
    var m := Misspelt(vs, QUOTE_RECIPIENT.fields, 1, 2);
    NotExact(m, QUOTE_RECIPIENT);
    NotExact(BigEndian(4, 4) + m, QUOTE_RESPONSE);
  }

  lemma {:induction false} EmptyRecipient(vs: seq<Value>)
    requires vs == [Chars(""), Flag(true), Flag(false), Flag(false), Chars(""), Chars("")]
    ensures HaveTypes(vs, QUOTE_RECIPIENT.fields)
  {
  }
}
