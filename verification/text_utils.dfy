/** The string helpers used to build fresh entity IDs (update_knowledge_agent/utils.py),
    and ASCII `str.lower()` / substring test shared with entity lookup. */
module TextUtils {
  import opened Wrappers
  import opened Seqs

  predicate IsAsciiLetter(c: char) {
    ('a' <= c <= 'z') || ('A' <= c <= 'Z')
  }

  predicate IsAsciiDigit(c: char) {
    '0' <= c <= '9'
  }

  /** Membership in the character class `[a-zA-Z0-9]`. */
  predicate IsAsciiAlnum(c: char) {
    IsAsciiLetter(c) || IsAsciiDigit(c)
  }

  /** `re.sub(r'[^a-zA-Z0-9]', '', text)`. */
  function RemoveNonalphanumeric(text: string): (r: string)
    ensures forall i :: 0 <= i < |r| ==> IsAsciiAlnum(r[i])
    ensures IsSubsequence(r, text)
    ensures forall c :: multiset(r)[c] == if IsAsciiAlnum(c) then multiset(text)[c] else 0
  {
    Filter(text, IsAsciiAlnum)
  }

  lemma RemoveNonalphanumericIdempotent(text: string)
    ensures RemoveNonalphanumeric(RemoveNonalphanumeric(text)) == RemoveNonalphanumeric(text)
  {
    FilterIdempotent(text, IsAsciiAlnum);
  }

  /** A string that is already alphanumeric is left as it is. */
  lemma RemoveNonalphanumericKeepsAlnum(text: string)
    requires forall i :: 0 <= i < |text| ==> IsAsciiAlnum(text[i])
    ensures RemoveNonalphanumeric(text) == text
  {
    FilterKeepsAll(text, IsAsciiAlnum);
  }

  /** `string.ascii_lowercase + string.digits`. */
  const Alphabet: string := "abcdefghijklmnopqrstuvwxyz0123456789"

  /** A position in `Alphabet`: the value `secrets.choice` picks. */
  type AlphabetIndex = i: nat | i < 36

  /** `generate_random_string(length=10)`, with `secrets.choice`'s i-th pick supplied by `pick(i)`.
      Python's `isinstance(length, int)` test is discharged by the type. */
  function GenerateRandomString(length: int := 10, pick: nat -> AlphabetIndex): (r: Result<string, Exception>)
    ensures r.Failure? <==> length <= 0
    ensures r.Failure? ==> r.error.ValueError?
    ensures r.Success? ==> |r.value| == length
    ensures r.Success? ==> forall i :: 0 <= i < |r.value| ==> r.value[i] in Alphabet
    ensures r.Success? ==> forall i :: 0 <= i < |r.value| ==> !('A' <= r.value[i] <= 'Z')
  {
    if length <= 0 then Failure(ValueError("Length must be a positive integer"))
    else
      assert |Alphabet| == 36;
      Success(seq(length, i requires 0 <= i < length => Alphabet[pick(i)]))
  }

  /** Every string of the requested length over the alphabet is a possible draw. */
  lemma EveryStringIsDrawable(s: string)
    requires |s| > 0
    requires forall i :: 0 <= i < |s| ==> s[i] in Alphabet
    ensures exists pick: nat -> AlphabetIndex :: GenerateRandomString(|s|, pick) == Success(s)
  {
    var pick: nat -> AlphabetIndex := (i: nat) => if i < |s| then IndexInAlphabet(s[i]) else 0;
    var r := GenerateRandomString(|s|, pick);
    assert r.value == s by {
      forall i | 0 <= i < |s| ensures r.value[i] == s[i] {
        assert Alphabet[IndexInAlphabet(s[i])] == s[i];
      }
    }
  }

  function IndexInAlphabet(c: char): (i: AlphabetIndex)
    requires c in Alphabet
    ensures Alphabet[i] == c
  {
    assert |Alphabet| == 36;
    if 'a' <= c <= 'z' then (c as int - 'a' as int) as AlphabetIndex
    else (c as int - '0' as int + 26) as AlphabetIndex
  }

  function LowerChar(c: char): char {
    if 'A' <= c <= 'Z' then (c as int - 'A' as int + 'a' as int) as char else c
  }

  /** `str.lower()` restricted to ASCII. */
  function Lower(s: string): (r: string)
    ensures |r| == |s|
    ensures forall i :: 0 <= i < |s| ==> r[i] == LowerChar(s[i])
  {
    seq(|s|, i requires 0 <= i < |s| => LowerChar(s[i]))
  }

  lemma LowerIdempotent(s: string)
    ensures Lower(Lower(s)) == Lower(s)
  {
  }

  /** Python's `needle in haystack` on strings; the empty string occurs everywhere. */
  predicate IsSubstring(needle: string, haystack: string) {
    exists i :: 0 <= i <= |haystack| - |needle| && OccursAt(needle, haystack, i)
  }

  predicate OccursAt(needle: string, haystack: string, i: int) {
    0 <= i && i + |needle| <= |haystack| && haystack[i..i + |needle|] == needle
  }
}
