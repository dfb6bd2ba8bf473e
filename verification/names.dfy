/**
 * How serde's `rename_all = "camelCase"` spells an enum variant: the Rust
 * variant name (PascalCase) with its first character made lower case.
 */
module Names {
  /** `char::to_ascii_lowercase`. */
  function ToAsciiLower(c: char): (r: char)
    ensures 'A' <= c <= 'Z' ==> 'a' <= r <= 'z' && r as int - 'a' as int == c as int - 'A' as int
    ensures !('A' <= c <= 'Z') ==> r == c
  {
    if 'A' <= c <= 'Z' then (c as int + 32) as char else c
  }

  /** The camelCase spelling of a PascalCase name. */
  function CamelCase(name: string): (r: string)
    ensures |r| == |name|
    ensures |name| > 0 ==> r[1..] == name[1..]
    ensures |name| > 0 && 'A' <= name[0] <= 'Z' ==> r != name && 'a' <= r[0] <= 'z'
  {
    if name == [] then [] else [ToAsciiLower(name[0])] + name[1..]
  }

  /** Spelling out one camelCase name: lower-case the first letter, keep the rest. */
  lemma CamelCaseOfPascal(name: string, camel: string)
    requires |name| > 0 && 'A' <= name[0] <= 'Z' && |camel| == |name|
    requires camel[0] as int == name[0] as int + 32 && camel[1..] == name[1..]
    ensures CamelCase(name) == camel
  {
    assert camel == [camel[0]] + camel[1..];
  }
}
