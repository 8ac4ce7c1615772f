/**
 The two file names derived for every usable image: the human-readable
 display name used for attachments and the random object key used for storage.
 */
module Naming {
  import opened Strings

  /** `generate_random_string(length=24)`. */
  const KeyLength: nat := 24

  /** How many prompt characters the display name keeps (`prompt[:10]`). */
  const PrefixLength: nat := 10

  /** One `random.choice` over `string.ascii_letters + string.digits`, as a position in that alphabet. */
  type Choice = c: nat | c < 62

  /** The choices one storage key consumes; randomness is injected through them. */
  type KeyDraws = d: seq<Choice> | |d| == 24 witness seq(24, _ => 0)

  predicate IsAsciiAlnum(ch: char) {
    'a' <= ch <= 'z' || 'A' <= ch <= 'Z' || '0' <= ch <= '9'
  }

  /** `(string.ascii_letters + string.digits)[c]`: a-z, then A-Z, then 0-9. */
  function AlphabetChar(c: Choice): (ch: char)
    ensures IsAsciiAlnum(ch)
  {
    if c < 26 then ('a' as int + c) as char
    else if c < 52 then ('A' as int + (c - 26)) as char
    else ('0' as int + (c - 52)) as char
  }

  /** The position of an ASCII letter or digit in the alphabet. */
  function AlphabetIndex(ch: char): (c: Choice)
    requires IsAsciiAlnum(ch)
    ensures AlphabetChar(c) == ch
  {
    if 'a' <= ch <= 'z' then ch as int - 'a' as int
    else if 'A' <= ch <= 'Z' then ch as int - 'A' as int + 26
    else ch as int - '0' as int + 52
  }

  /** The alphabet lists 62 different characters. */
  lemma AlphabetCharInjective(c: Choice, c': Choice)
    requires AlphabetChar(c) == AlphabetChar(c')
    ensures c == c'
  {
  }

  /** `generate_random_string()`: 24 characters, each one drawn from the alphabet. */
  function RandomString(draws: KeyDraws): (r: string)
    ensures |r| == KeyLength
    ensures forall k :: 0 <= k < |r| ==> IsAsciiAlnum(r[k]) && r[k] == AlphabetChar(draws[k])
  {
    seq(KeyLength, k requires 0 <= k < KeyLength => AlphabetChar(draws[k]))
  }

  /** Every 24-character alphanumeric string is the key of exactly one run of draws. */
  lemma RandomStringBijective(name: string, draws: KeyDraws)
    requires |name| == KeyLength && forall k :: 0 <= k < |name| ==> IsAsciiAlnum(name[k])
    ensures RandomString(draws) == name <==> forall k :: 0 <= k < KeyLength ==> draws[k] == AlphabetIndex(name[k])
  {
    if RandomString(draws) == name {
      forall k | 0 <= k < KeyLength
        ensures draws[k] == AlphabetIndex(name[k])
      {
        AlphabetCharInjective(draws[k], AlphabetIndex(name[k]));
      }
    }
  }

  /** The storage object key: `f"{generate_random_string()}.jpg"`. */
  function StorageKey(draws: KeyDraws): (key: string)
    ensures |key| == KeyLength + 4 && key[KeyLength..] == ".jpg"
    ensures forall k :: 0 <= k < KeyLength ==> IsAsciiAlnum(key[k])
  {
    RandomString(draws) + ".jpg"
  }

  /** How many prompt characters the display name keeps. */
  function KeptLength(prompt: string): nat {
    if |prompt| <= PrefixLength then |prompt| else PrefixLength
  }

  /**
   The attachment's display name `f"{prompt[:10].replace(' ', '_')}_image_{index + 1}.jpg"`,
   where `index` is the image's position in the generated batch. It starts
   with the first ten prompt characters with spaces turned into underscores,
   and the number between `_image_` and `.jpg` reads back as `index + 1`.
   */
  function DisplayName(prompt: string, index: nat): (name: string)
    ensures |name| > KeptLength(prompt) + 11
    ensures forall k :: 0 <= k < KeptLength(prompt) ==> name[k] == (if prompt[k] == ' ' then '_' else prompt[k])
    ensures name[KeptLength(prompt)..KeptLength(prompt) + 7] == "_image_"
    ensures name[|name| - 4..] == ".jpg"
    ensures AllDigits(name[KeptLength(prompt) + 7..|name| - 4])
    ensures DigitsValue(name[KeptLength(prompt) + 7..|name| - 4]) == index + 1
  {
    var head := ReplaceSpaces(Take(prompt, PrefixLength));
    var number := DecimalString(index + 1);
    var name := head + "_image_" + number + ".jpg";
    assert name[|head|..|head| + 7] == "_image_";
    assert name[|head| + 7..|name| - 4] == number;
    name
  }

  /** Images at different positions of one batch get different display names. */
  lemma DisplayNamesDistinct(prompt: string, i: nat, j: nat)
    requires i != j
    ensures DisplayName(prompt, i) != DisplayName(prompt, j)
  {
    hide *;
  }
}
