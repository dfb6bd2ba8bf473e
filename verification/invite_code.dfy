/**
 * Invite codes: the `InviteCodeType` filter parsed from text, and the sort
 * key, which is both printed and parsed.
 */
module InviteCode {
  import opened Wrappers
  import opened Names

  datatype InviteCodeType = Unused | Used | Expired | All

  datatype ParseInviteCodeTypeError = ParseInviteCodeTypeError

  function InviteCodeTypeName(t: InviteCodeType): string {
    match t
    case Unused => "Unused"
    case Used => "Used"
    case Expired => "Expired"
    case All => "All"
  }

  /** The name serde writes for a variant (`rename_all = "camelCase"`). */
  function InviteCodeTypeSerdeName(t: InviteCodeType): string {
    CamelCase(InviteCodeTypeName(t))
  }

  lemma InviteCodeTypeSerdeNames()
    ensures InviteCodeTypeSerdeName(Unused) == "unused" && InviteCodeTypeSerdeName(Used) == "used"
    ensures InviteCodeTypeSerdeName(Expired) == "expired" && InviteCodeTypeSerdeName(All) == "all"
  {
  }

  /** `InviteCodeType::from_str`: accepts a variant's serde name or its Rust name, and nothing else. */
  function InviteCodeTypeFromStr(s: string): (r: Result<InviteCodeType, ParseInviteCodeTypeError>)
    ensures forall t :: r == Ok(t) <==> s == InviteCodeTypeSerdeName(t) || s == InviteCodeTypeName(t)
  {
    InviteCodeTypeSerdeNames();
    match s
    case "unused" | "Unused" => Ok(Unused)
    case "used" | "Used" => Ok(Used)
    case "expired" | "Expired" => Ok(Expired)
    case "all" | "All" => Ok(All)
    case _ => Err(ParseInviteCodeTypeError)
  }

  /** Every variant's serialized name parses back to it; any other text is an error. */
  lemma InviteCodeTypeRoundTrip(t: InviteCodeType, s: string)
    ensures InviteCodeTypeFromStr(InviteCodeTypeSerdeName(t)) == Ok(t)
    ensures InviteCodeTypeFromStr(InviteCodeTypeName(t)) == Ok(t)
    ensures InviteCodeTypeFromStr(s).Err? <==> forall u :: s != InviteCodeTypeSerdeName(u) && s != InviteCodeTypeName(u)
  {
    InviteCodeTypeSerdeNames();
  }

  datatype InviteCodeSortKey = CreatedAt | UsedAt

  datatype ParseInviteCodeSortKeyError = ParseInviteCodeSortKeyError

  function SortKeyName(k: InviteCodeSortKey): string {
    match k
    case CreatedAt => "CreatedAt"
    case UsedAt => "UsedAt"
  }

  /** `Display for InviteCodeSortKey`: the camelCase field name the API sorts on. */
  function SortKeyDisplay(k: InviteCodeSortKey): (r: string)
    ensures r == CamelCase(SortKeyName(k))
    ensures r != SortKeyName(k)
  {
    match k
    case CreatedAt => "createdAt"
    case UsedAt => "usedAt"
  }

  /** `InviteCodeSortKey::from_str`: accepts exactly the printed form and the Rust name of a key. */
  function SortKeyFromStr(s: string): (r: Result<InviteCodeSortKey, ParseInviteCodeSortKeyError>)
    ensures forall k :: r == Ok(k) <==> s == SortKeyDisplay(k) || s == SortKeyName(k)
  {
    match s
    case "createdAt" | "CreatedAt" => Ok(CreatedAt)
    case "usedAt" | "UsedAt" => Ok(UsedAt)
    case _ => Err(ParseInviteCodeSortKeyError)
  }

  /** Printing then parsing gives the key back; printing tells keys apart. */
  lemma SortKeyRoundTrip(k: InviteCodeSortKey, j: InviteCodeSortKey)
    ensures SortKeyFromStr(SortKeyDisplay(k)) == Ok(k)
    ensures SortKeyDisplay(k) == SortKeyDisplay(j) ==> k == j
  {
  }

  /** Parsing then printing gives back the text only for the printed spelling. */
  lemma SortKeyParseThenDisplay(s: string)
    ensures SortKeyFromStr(s).Ok? ==> (SortKeyDisplay(SortKeyFromStr(s).value) == s <==> s == "createdAt" || s == "usedAt")
  {
  }
}
