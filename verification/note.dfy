/**
 * Notes: hashtags and reactions (string newtypes with a textual form) and
 * the two enumerations that are parsed from text, `Visibility` and
 * `ReactionAcceptance`.
 */
module Note {
  import opened Wrappers
  import opened Names

  /** A hashtag; the stored name may or may not start with `#`. */
  datatype Tag = Tag(name: string)

  /** An emoji reaction, kept as its text. */
  datatype Reaction = Reaction(name: string)

  predicate StartsWithHash(s: string) {
    |s| > 0 && s[0] == '#'
  }

  /** `Display for Tag`: the name, with a `#` written first unless it already starts with one. */
  function TagDisplay(t: Tag): (r: string)
    ensures StartsWithHash(r)
    ensures |t.name| <= |r| <= |t.name| + 1 && r[|r| - |t.name|..] == t.name
    ensures r == t.name <==> StartsWithHash(t.name)
  {
    if StartsWithHash(t.name) then t.name else "#" + t.name
  }

  /** `FromStr for Tag`: never fails (its error type is `Infallible`), keeps the text as it is. */
  function TagFromStr(s: string): (t: Tag)
    ensures t.name == s
  {
    Tag(s)
  }

  /** Printing a tag, reading the text back and printing again gives the same text. */
  lemma TagDisplayIdempotent(t: Tag)
    ensures TagDisplay(TagFromStr(TagDisplay(t))) == TagDisplay(t)
  {
  }

  /** Reading a text as a tag and printing it gives the text back exactly when it starts with `#`. */
  lemma TagParseThenDisplay(s: string)
    ensures TagDisplay(TagFromStr(s)) == s <==> StartsWithHash(s)
    ensures TagDisplay(TagFromStr(s)) == if StartsWithHash(s) then s else "#" + s
  {
  }

  /** Printing a tag and reading the text back gives the same tag exactly when its name starts with `#`. */
  lemma TagDisplayThenParse(t: Tag)
    ensures TagFromStr(TagDisplay(t)) == t <==> StartsWithHash(t.name)
  {
  }

  /** `Display for Reaction`: the text unchanged. */
  function ReactionDisplay(r: Reaction): (s: string)
    ensures s == r.name
  {
    r.name
  }

  /** `FromStr for Reaction`: never fails, keeps the text as it is. */
  function ReactionFromStr(s: string): (r: Reaction)
    ensures r.name == s
  {
    Reaction(s)
  }

  /** Reactions and their texts are in one-to-one correspondence. */
  lemma ReactionRoundTrip(r: Reaction, s: string)
    ensures ReactionFromStr(ReactionDisplay(r)) == r
    ensures ReactionDisplay(ReactionFromStr(s)) == s
  {
  }

  datatype Visibility = Public | Home | Followers | Specified

  datatype ParseVisibilityError = ParseVisibilityError

  /** The Rust name of each variant. */
  function VisibilityName(v: Visibility): string {
    match v
    case Public => "Public"
    case Home => "Home"
    case Followers => "Followers"
    case Specified => "Specified"
  }

  /** The name serde writes for a variant (`rename_all = "camelCase"`). */
  function VisibilitySerdeName(v: Visibility): string {
    CamelCase(VisibilityName(v))
  }

  lemma VisibilitySerdeNames()
    ensures VisibilitySerdeName(Public) == "public" && VisibilitySerdeName(Home) == "home"
    ensures VisibilitySerdeName(Followers) == "followers" && VisibilitySerdeName(Specified) == "specified"
  {
  }

  /** `Visibility::from_str`: accepts a variant's serde name or its Rust name, and nothing else. */
  function VisibilityFromStr(s: string): (r: Result<Visibility, ParseVisibilityError>)
    ensures forall v :: r == Ok(v) <==> s == VisibilitySerdeName(v) || s == VisibilityName(v)
  {
    VisibilitySerdeNames();
    match s
    case "public" | "Public" => Ok(Public)
    case "home" | "Home" => Ok(Home)
    case "followers" | "Followers" => Ok(Followers)
    case "specified" | "Specified" => Ok(Specified)
    case _ => Err(ParseVisibilityError)
  }

  /** Every variant's serialized name parses back to it; any other text is an error. */
  lemma VisibilityRoundTrip(v: Visibility, s: string)
    ensures VisibilityFromStr(VisibilitySerdeName(v)) == Ok(v)
    ensures VisibilityFromStr(VisibilityName(v)) == Ok(v)
    ensures VisibilityFromStr(s).Err? <==> forall w :: s != VisibilitySerdeName(w) && s != VisibilityName(w)
  {
    VisibilitySerdeNames();
  }

  /**
   * `ReactionAcceptance`. The last two variants exist only when the crate is
   * built for Misskey 13.13.0 or later; `nonSensitive` below says whether it is.
   */
  datatype ReactionAcceptance =
    | LikeOnly
    | LikeOnlyForRemote
    | NonSensitiveOnly
    | NonSensitiveOnlyForLocalLikeOnlyForRemote

  datatype ParseReactionAcceptanceError = ParseReactionAcceptanceError

  /** Whether a variant is compiled in. */
  predicate Enabled(v: ReactionAcceptance, nonSensitive: bool) {
    v.LikeOnly? || v.LikeOnlyForRemote? || nonSensitive
  }

  function ReactionAcceptanceName(v: ReactionAcceptance): string {
    match v
    case LikeOnly => "LikeOnly"
    case LikeOnlyForRemote => "LikeOnlyForRemote"
    case NonSensitiveOnly => "NonSensitiveOnly"
    case NonSensitiveOnlyForLocalLikeOnlyForRemote => "NonSensitiveOnlyForLocalLikeOnlyForRemote"
  }

  function ReactionAcceptanceSerdeName(v: ReactionAcceptance): string {
    CamelCase(ReactionAcceptanceName(v))
  }

  lemma ReactionAcceptanceSerdeNames()
    ensures ReactionAcceptanceSerdeName(LikeOnly) == "likeOnly"
    ensures ReactionAcceptanceSerdeName(LikeOnlyForRemote) == "likeOnlyForRemote"
    ensures ReactionAcceptanceSerdeName(NonSensitiveOnly) == "nonSensitiveOnly"
    ensures ReactionAcceptanceSerdeName(NonSensitiveOnlyForLocalLikeOnlyForRemote) == "nonSensitiveOnlyForLocalLikeOnlyForRemote"
  {
    CamelCaseOfPascal("LikeOnly", "likeOnly");
    CamelCaseOfPascal("LikeOnlyForRemote", "likeOnlyForRemote");
    CamelCaseOfPascal("NonSensitiveOnly", "nonSensitiveOnly");
    CamelCaseOfPascal("NonSensitiveOnlyForLocalLikeOnlyForRemote", "nonSensitiveOnlyForLocalLikeOnlyForRemote");
  }

  /** `ReactionAcceptance::from_str`: accepts the serde or Rust name of a variant that is compiled in, and nothing else. */
  function ReactionAcceptanceFromStr(s: string, nonSensitive: bool): (r: Result<ReactionAcceptance, ParseReactionAcceptanceError>)
    ensures forall v :: r == Ok(v) <==> Enabled(v, nonSensitive) && (s == ReactionAcceptanceSerdeName(v) || s == ReactionAcceptanceName(v))
  {
    ReactionAcceptanceSerdeNames();
    match s
    case "likeOnly" | "LikeOnly" => Ok(LikeOnly)
    case "likeOnlyForRemote" | "LikeOnlyForRemote" => Ok(LikeOnlyForRemote)
    case "nonSensitiveOnly" | "NonSensitiveOnly" =>
      if nonSensitive then Ok(NonSensitiveOnly) else Err(ParseReactionAcceptanceError)
    case "nonSensitiveOnlyForLocalLikeOnlyForRemote" | "NonSensitiveOnlyForLocalLikeOnlyForRemote" =>
      if nonSensitive then Ok(NonSensitiveOnlyForLocalLikeOnlyForRemote) else Err(ParseReactionAcceptanceError)
    case _ => Err(ParseReactionAcceptanceError)
  }

  /**
   * Every compiled-in variant's names parse back to it; without the newer
   * variants nothing parses to them, and whatever parses without them parses
   * to the same variant with them.
   */
  lemma ReactionAcceptanceRoundTrip(v: ReactionAcceptance, s: string, nonSensitive: bool)
    requires Enabled(v, nonSensitive)
    ensures ReactionAcceptanceFromStr(ReactionAcceptanceSerdeName(v), nonSensitive) == Ok(v)
    ensures ReactionAcceptanceFromStr(ReactionAcceptanceName(v), nonSensitive) == Ok(v)
    ensures ReactionAcceptanceFromStr(s, false).Ok? ==> ReactionAcceptanceFromStr(s, false).value.LikeOnly? || ReactionAcceptanceFromStr(s, false).value.LikeOnlyForRemote?
    ensures ReactionAcceptanceFromStr(s, false).Ok? ==> ReactionAcceptanceFromStr(s, true) == ReactionAcceptanceFromStr(s, false)
  {
    ReactionAcceptanceSerdeNames();
  }
}
