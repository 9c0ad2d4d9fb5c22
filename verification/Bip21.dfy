/** Bitcoin payment URIs (BIP 21) with the wallet's own query keys. */
module Bip21 {
  import opened Options
  import opened Text
  import opened Decimals
  import opened Numbers
  import opened UrlParams

  /** What the wallet asks others: the SDK's address check, and `Number` on texts that are no plain decimals. */
  datatype Env = Env(isValidArkAddress: string -> bool, otherNumber: string -> Number)

  datatype Decoded = Decoded(
    address: Option<string>, arkAddress: Option<string>, satoshis: Option<int>, assetAmount: Option<string>,
    invoice: Option<string>, lnUrl: Option<string>, assetId: Option<string>)

  datatype Error = InvalidUri | InvalidAssetAmount | InvalidAmount

  datatype Outcome = Done(decoded: Decoded) | Failed(error: Error)

  const EMPTY := Decoded(None, None, None, None, None, None, None)

  const BITCOIN_DECIMALS: Number := Finite(8.0)

  // ---------- Decoding ----------

  /** An empty text counts as absent. */
  function Truthy(s: string): Option<string> { if s == "" then None else Some(s) }

  /** The first value whose key matches whatever its case. */
  function GetParam(params: Params, name: string): Option<string> {
    if params == [] then None
    else if Lower(params[0].0) == name then Some(params[0].1) else GetParam(params[1..], name)
  }

  /** `/^\d+(\.\d+)?$/` */
  predicate IsAssetAmount(s: string) {
    var i := IndexOf(s, '.');
    i > 0 && AllDigits(s[..i]) && (i < |s| ==> s[i + 1..] != "" && AllDigits(s[i + 1..]))
  }

  /** `Number(s)` */
  function ToNumber(env: Env, s: string): Number {
    var t := Trim(s);
    var body := if t != "" && t[0] in "+-" then t[1..] else t;
    var i := IndexOf(body, '.');
    var (integer, fraction) := (body[..i], if i < |body| then body[i + 1..] else "");
    if t == "" then Finite(0.0)
    else if integer + fraction != "" && AllDigits(integer + fraction) then
      var magnitude := Val(integer + fraction) as real / Pow10(|fraction|) as real;
      Finite(if t[0] == '-' then 0.0 - magnitude else magnitude)
    else env.otherNumber(t)
  }

  function ToSatoshis(r: real): int { (r * 100000000.0).Floor }

  predicate IsLnurl(s: string) { "lnurl" <= Lower(s) }

  predicate StartsLn(s: string) { "ln" <= Lower(s) }

  predicate IsInvoice(s: string) { !IsLnurl(s) && StartsLn(s) }

  lemma NothingLightning()
    ensures !StartsLn("") && !IsLnurl("") && !IsInvoice("")
  {
  }

  function When(s: string, keep: bool): Option<string> { if keep then Some(s) else None }

  function Fill(env: Env, address: string, params: Params): Outcome {
    FillWith(env, address, GetParam(params, "ark").GetOr(""), GetParam(params, "assetid").GetOr(""),
             GetParam(params, "amount"), GetParam(params, "lightning").GetOr(""))
  }

  function FillWith(env: Env, address: string, ark: string, assetId: string, amount: Option<string>,
      lightning: string): Outcome {
    var number := ToNumber(env, amount.GetOr(""));
    if amount.Some? && assetId != "" && !IsAssetAmount(amount.value) then Failed(InvalidAssetAmount)
    else if amount.Some? && assetId == "" && (number.NotFinite? || number.r < 0.0) then Failed(InvalidAmount)
    else Done(Decoded(
      Truthy(address), When(ark, ark != "" && env.isValidArkAddress(ark)),
      if amount.Some? && assetId == "" then Some(ToSatoshis(number.r)) else None,
      if assetId != "" then amount else None,
      When(lightning, IsInvoice(lightning)), When(lightning, IsLnurl(lightning)), Truthy(assetId)))
  }

  predicate HasScheme(s: string): (b: bool)
    ensures b ==> |s| >= 8
  {
    "bitcoin:" <= Lower(s)
  }

  function Decode(env: Env, uri: string): Outcome {
    var t := Trim(uri);
    if !HasScheme(t) then Failed(InvalidUri)
    else
      var rest := t[8..];
      var cut := IndexOf(rest, '?');
      var tail := if cut < |rest| then rest[cut + 1..] else "";
      var query := tail[..IndexOf(tail, '?')];
      if query == "" then Done(EMPTY.(address := Truthy(rest[..cut]))) else Fill(env, rest[..cut], ParseQuery(query))
  }

  method FindParam(params: Params, name: string) returns (value: Option<string>)
    ensures value == GetParam(params, name)
  {
    for i := 0 to |params|
      invariant GetParam(params, name) == GetParam(params[i..], name)
    {
      if Lower(params[i].0) == name { return Some(params[i].1); }
    }
    value := None;
  }

  method DecodeBip21(env: Env, uri: string) returns (outcome: Outcome)
    ensures outcome == Decode(env, uri)
  {
    NothingLightning();
    hide HasScheme;
    hide Trim;
    hide Lower;
    hide ParseQuery;
    hide GetParam;
    hide ToNumber;
    hide IsAssetAmount;
    hide IndexOf;
    hide ToSatoshis;
    hide StartsLn;
    hide IsLnurl;
    var result := EMPTY;
    var bip21Url := Trim(uri);
    if !HasScheme(bip21Url) { return Failed(InvalidUri); }
    var rest := bip21Url[8..];
    var cut := IndexOf(rest, '?');
    var tail := if cut < |rest| then rest[cut + 1..] else "";
    var query := tail[..IndexOf(tail, '?')];
    if cut > 0 { result := result.(address := Some(rest[..cut])); }
    if query != "" {
      var params := ParseQuery(query);
      var ark := FindParam(params, "ark");
      if ark.Some? && ark.value != "" && env.isValidArkAddress(ark.value) { result := result.(arkAddress := ark); }
      var assetId := FindParam(params, "assetid");
      if assetId.Some? && assetId.value != "" { result := result.(assetId := assetId); }
      var amount := FindParam(params, "amount");
      if amount.Some? {
        if result.assetId.Some? {
          if !IsAssetAmount(amount.value) { return Failed(InvalidAssetAmount); }
          result := result.(assetAmount := amount);
        } else {
          var number := ToNumber(env, amount.value);
          if number.NotFinite? || number.r < 0.0 { return Failed(InvalidAmount); }
          result := result.(satoshis := Some(ToSatoshis(number.r)));
        }
      }
      var lightning := FindParam(params, "lightning");
      if lightning.Some? && lightning.value != "" {
        if IsLnurl(lightning.value) {
          result := result.(lnUrl := lightning);
        } else if StartsLn(lightning.value) {
          result := result.(invoice := lightning);
        }
      }
    }
    outcome := Done(result);
  }

  // ---------- Encoding ----------

  /** `prettyNumber(fromSatoshis(sats), 8, false)`: plain decimal text, trailing zeros dropped, never grouped. */
  function BitcoinText(sats: int): string { CentsToUnits(sats, BITCOIN_DECIMALS) }

  /** One '&' or '?' at the end is cut off. */
  function WithoutTrailing(s: string): string
    requires s != ""
  {
    if s[|s| - 1] in "&?" then s[..|s| - 1] else s
  }

  function Encode(address: string, arkAddress: string, invoice: string, sats: int, lnurl: string): string {
    WithoutTrailing("bitcoin:" + address + "?" +
      (if arkAddress != "" then "ark=" + arkAddress + "&" else "") +
      (if invoice != "" then "lightning=" + invoice + "&" else if lnurl != "" then "lightning=" + lnurl + "&" else "") +
      (if sats != 0 then "amount=" + BitcoinText(sats) else ""))
  }

  function EncodeAsset(arkAddress: string, assetId: string, cents: int, decimals: Number): string {
    "bitcoin:?ark=" + arkAddress + "&assetid=" + assetId + "&amount=" + CentsToUnits(cents, decimals)
  }
}
