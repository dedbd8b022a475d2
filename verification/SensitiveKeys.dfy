/** Which keys must never reach a log. */
module SensitiveKeys {
  import Decimal

  const CREDENTIALS := [
    "password", "passwd", "secret", "token", "apikey", "api_key", "authorization", "auth", "cookie",
    "session", "credential", "privatekey", "private_key", "x-internal-trigger"]

  const PAYMENTS := [
    "cardnumber", "card_number", "cvv", "cvc", "pan", "iban", "sortcode", "sort_code",
    "accountnumber", "account_number"]

  const IDENTITIES := [
    "nationalinsurance", "national_insurance", "nino", "taxidentifier", "tax_identifier",
    "dateofbirth", "date_of_birth", "dob", "passportnumber", "passport_number"]

  const LOCATIONS := ["latitude", "longitude", "coordinates", "addressline", "address_line"]

  const SENSITIVE_KEY_PATTERNS: seq<string> := CREDENTIALS + PAYMENTS + IDENTITIES + LOCATIONS

  function Lower(c: char): char {
    if 'A' <= c <= 'Z' then (c as int + 32) as char else c
  }

  /** Capitals become the small letter at the same place in the alphabet; nothing else changes. */
  lemma LowerByAlphabet(c: char, i: nat)
    ensures i < 26 ==> Lower("ABCDEFGHIJKLMNOPQRSTUVWXYZ"[i]) == "abcdefghijklmnopqrstuvwxyz"[i]
    ensures c !in "ABCDEFGHIJKLMNOPQRSTUVWXYZ" ==> Lower(c) == c
  {
    if 'A' <= c <= 'Z' {
      var k := c as int - 'A' as int;
      assert "ABCDEFGHIJKLMNOPQRSTUVWXYZ"[k] == c;
    }
  }

  predicate IsSeparator(c: char) {
    c == '-' || c == '_' || Decimal.IsSpace(c)
  }

  /** Lower case, with separators dropped. */
  function Normalised(s: string): string {
    if s == [] then [] else Kept(s[0]) + Normalised(s[1..])
  }

  function Kept(c: char): string {
    if IsSeparator(c) then [] else [Lower(c)]
  }

  predicate Includes(s: string, p: string) {
    exists i | 0 <= i <= |s| - |p| :: StandsAt(s, p, i)
  }

  predicate StandsAt(s: string, p: string, i: nat)
    requires i + |p| <= |s|
  {
    s[i..i + |p|] == p
  }

  predicate IsSensitiveKey(key: string) {
    exists p | p in SENSITIVE_KEY_PATTERNS :: Includes(Normalised(key), Normalised(p))
  }

  lemma {:induction false} NormalisedConcat(a: string, b: string)
    ensures Normalised(a + b) == Normalised(a) + Normalised(b)
  {
    hide Kept;
    if a == [] {
      assert a + b == b;
    } else {
      NormalisedConcat(a[1..], b);
      assert (a + b)[1..] == a[1..] + b;
      calc {
        Normalised(a + b);
        Kept(a[0]) + (Normalised(a[1..]) + Normalised(b));
        { Associative(Kept(a[0]), Normalised(a[1..]), Normalised(b)); }
        Normalised(a) + Normalised(b);
      }
    }
  }

  lemma Associative(x: string, y: string, z: string)
    ensures x + (y + z) == (x + y) + z
  {
  }

  /** However it is spelled, split or surrounded, a key that holds a pattern is caught. */
  lemma SensitiveInAnyGuise(before: string, guise: string, after: string, pattern: string)
    requires pattern in SENSITIVE_KEY_PATTERNS && Normalised(guise) == Normalised(pattern)
    ensures IsSensitiveKey(before + guise + after)
  {
    NormalisedConcat(before + guise, after);
    NormalisedConcat(before, guise);
    var p, a := Normalised(guise), Normalised(before);
    assert StandsAt(Normalised(before + guise + after), p, |a|);
  }

  // ---- Keys that are not sensitive --------------------------------------------------------------

  /** A letter a word over `letters` does not have. */
  predicate IsForeign(letters: set<char>, c: char) {
    'a' <= c <= 'z' && c !in letters
  }

  ghost predicate HasForeign(letters: set<char>, s: string) {
    exists i | 0 <= i < |s| :: IsForeign(letters, s[i])
  }

  lemma LetterStays(c: char)
    requires 'a' <= c <= 'z'
    ensures Kept(c) == [c]
  {
  }

  lemma ForeignIsKept(letters: set<char>, s: string, i: nat)
    requires i < |s| && IsForeign(letters, s[i])
    ensures HasForeign(letters, Normalised(s))
  {
    hide Kept;
    var a, b := s[..i], s[i..];
    LetterStays(s[i]);
    NormalisedConcat(a, b);
    assert s == a + b;
    assert Normalised(b) == [s[i]] + Normalised(b[1..]);
    hide Normalised;
    assert Normalised(s)[|Normalised(a)|] == s[i];
  }

  ghost predicate AllForeign(letters: set<char>, patterns: seq<string>) {
    forall p | p in patterns :: HasForeign(letters, Normalised(p))
  }

  /** `at` says where each pattern has a letter the word does not. */
  lemma ForeignAt(letters: set<char>, patterns: seq<string>, at: seq<nat>)
    requires |at| == |patterns|
    requires forall k | 0 <= k < |at| :: at[k] < |patterns[k]| && IsForeign(letters, patterns[k][at[k]])
    ensures AllForeign(letters, patterns)
  {
    hide Normalised, HasForeign;
    forall p | p in patterns
      ensures HasForeign(letters, Normalised(p))
    {
      var k :| 0 <= k < |patterns| && patterns[k] == p;
      ForeignIsKept(letters, p, at[k]);
    }
  }

  /** A key whose letters no pattern keeps to holds no pattern. */
  lemma PlainKey(letters: set<char>, key: string)
    requires AllForeign(letters, SENSITIVE_KEY_PATTERNS)
    requires forall i | 0 <= i < |Normalised(key)| :: Normalised(key)[i] in letters
    ensures !IsSensitiveKey(key)
  {
    hide Normalised;
    forall p | p in SENSITIVE_KEY_PATTERNS
      ensures !Includes(Normalised(key), Normalised(p))
    {
      var n := Normalised(p);
      var i :| 0 <= i < |n| && IsForeign(letters, n[i]);
      assert forall j | 0 <= j <= |Normalised(key)| - |n| ::
          StandsAt(Normalised(key), n, j) ==> Normalised(key)[j + i] == n[i];
    }
  }

  lemma AllGroupsForeign(letters: set<char>)
    requires AllForeign(letters, CREDENTIALS) && AllForeign(letters, PAYMENTS)
    requires AllForeign(letters, IDENTITIES) && AllForeign(letters, LOCATIONS)
    ensures AllForeign(letters, SENSITIVE_KEY_PATTERNS)
  {
    hide Normalised, HasForeign;
    forall p | p in SENSITIVE_KEY_PATTERNS
      ensures HasForeign(letters, Normalised(p))
    {
      assert p in CREDENTIALS || p in PAYMENTS || p in IDENTITIES || p in LOCATIONS;
    }
  }

  /** The letters of `name`, `message`, `stack` and `cause`. */
  const ERROR_LETTERS := {'n', 'a', 'm', 'e', 's', 'g', 't', 'c', 'k', 'u'}

  lemma ErrorCredentials()
    ensures AllForeign(ERROR_LETTERS, CREDENTIALS)
  {
    hide AllForeign;
    ForeignAt(ERROR_LETTERS, CREDENTIALS, [0, 0, 3, 1, 1, 1, 3, 3, 1, 4, 1, 0, 0, 0]);
  }

  lemma ErrorPayments()
    ensures AllForeign(ERROR_LETTERS, PAYMENTS)
  {
    hide AllForeign;
    ForeignAt(ERROR_LETTERS, PAYMENTS, [2, 2, 1, 1, 0, 0, 1, 1, 3, 3]);
  }

  lemma ErrorIdentities()
    ensures AllForeign(ERROR_LETTERS, IDENTITIES)
  {
    hide AllForeign;
    ForeignAt(ERROR_LETTERS, IDENTITIES, [3, 3, 1, 2, 2, 0, 0, 0, 0, 0]);
  }

  lemma ErrorLocations()
    ensures AllForeign(ERROR_LETTERS, LOCATIONS)
  {
    hide AllForeign;
    ForeignAt(ERROR_LETTERS, LOCATIONS, [0, 0, 1, 1, 1]);
  }

  lemma PatternsAgainstError()
    ensures AllForeign(ERROR_LETTERS, SENSITIVE_KEY_PATTERNS)
  {
    hide AllForeign;
    ErrorCredentials();
    ErrorPayments();
    ErrorIdentities();
    ErrorLocations();
    AllGroupsForeign(ERROR_LETTERS);
  }

  const PROTO := "__proto__"
  const PROTO_LETTERS := {'p', 'r', 'o', 't'}

  lemma ProtoCredentials()
    ensures AllForeign(PROTO_LETTERS, CREDENTIALS)
  {
    hide AllForeign;
    ForeignAt(PROTO_LETTERS, CREDENTIALS, [1, 1, 0, 2, 0, 0, 0, 0, 0, 0, 0, 2, 2, 0]);
  }

  lemma ProtoPayments()
    ensures AllForeign(PROTO_LETTERS, PAYMENTS)
  {
    hide AllForeign;
    ForeignAt(PROTO_LETTERS, PAYMENTS, [0, 0, 0, 0, 1, 0, 0, 0, 0, 0]);
  }

  lemma ProtoIdentities()
    ensures AllForeign(PROTO_LETTERS, IDENTITIES)
  {
    hide AllForeign;
    ForeignAt(PROTO_LETTERS, IDENTITIES, [0, 0, 0, 1, 1, 0, 0, 0, 1, 1]);
  }

  lemma ProtoLocations()
    ensures AllForeign(PROTO_LETTERS, LOCATIONS)
  {
    hide AllForeign;
    ForeignAt(PROTO_LETTERS, LOCATIONS, [0, 0, 0, 0, 0]);
  }

  lemma PatternsAgainstProto()
    ensures AllForeign(PROTO_LETTERS, SENSITIVE_KEY_PATTERNS)
  {
    hide AllForeign;
    ProtoCredentials();
    ProtoPayments();
    ProtoIdentities();
    ProtoLocations();
    AllGroupsForeign(PROTO_LETTERS);
  }

  predicate IsErrorKey(key: string) {
    key in {"name", "message", "stack", "cause"}
  }

  lemma {:induction false} OnlyLowerCase(s: string)
    requires forall i | 0 <= i < |s| :: 'a' <= s[i] <= 'z'
    ensures Normalised(s) == s
  {
    hide Kept;
    if s != [] {
      LetterStays(s[0]);
      OnlyLowerCase(s[1..]);
    }
  }

  /** The keys an error is shown under are ordinary ones. */
  lemma ErrorKeysArePlain(key: string)
    requires IsErrorKey(key)
    ensures !IsSensitiveKey(key)
  {
    hide IsSensitiveKey, AllForeign, Normalised;
    PatternsAgainstError();
    OnlyLowerCase(key);
    PlainKey(ERROR_LETTERS, key);
  }

  /** So is the key that an assignment cannot make an entry of. */
  lemma ProtoIsPlain()
    ensures !IsSensitiveKey(PROTO)
  {
    hide IsSensitiveKey, AllForeign;
    PatternsAgainstProto();
    NormalisedProto();
    hide Normalised;
    PlainKey(PROTO_LETTERS, PROTO);
  }

  lemma {:induction false} OnlySeparators(s: string)
    requires forall i | 0 <= i < |s| :: IsSeparator(s[i])
    ensures Normalised(s) == ""
  {
    if s != [] { OnlySeparators(s[1..]); }
  }

  lemma NormalisedProto()
    ensures Normalised(PROTO) == "proto"
  {
    hide Normalised;
    OnlyLowerCase("proto");
    OnlySeparators("__");
    NormalisedConcat("__" + "proto", "__");
    NormalisedConcat("__", "proto");
    assert "__" + "proto" + "__" == PROTO;
  }

  // ---- What must not be logged ------------------------------------------------------------------

  const CREDENTIAL_WORDS := {
    "password", "passwd", "secret", "token", "apikey", "authorization", "auth", "cookie", "session", "credential",
    "privatekey", "x-internal-trigger"}

  const PAYMENT_WORDS := {"cardnumber", "cvv", "cvc", "pan", "iban", "sortcode", "accountnumber"}

  const IDENTITY_WORDS := {"nationalinsurance", "nino", "taxidentifier", "dateofbirth", "dob", "passportnumber"}

  const LOCATION_WORDS := {"latitude", "longitude", "coordinates", "addressline"}

  lemma CredentialsAreListed(word: string)
    requires word in CREDENTIAL_WORDS
    ensures word in CREDENTIALS
  {
  }

  lemma OthersAreListed(word: string)
    ensures word in PAYMENT_WORDS ==> word in PAYMENTS
    ensures word in IDENTITY_WORDS ==> word in IDENTITIES
    ensures word in LOCATION_WORDS ==> word in LOCATIONS
  {
  }

  /** Credentials, payment data, identity data and locations are caught however the key is spelled: the case,
      the separators and what stands around the word do not matter. */
  lemma SecretsAreCaught(before: string, guise: string, after: string, word: string)
    requires word in CREDENTIAL_WORDS || word in PAYMENT_WORDS || word in IDENTITY_WORDS || word in LOCATION_WORDS
    requires Normalised(guise) == Normalised(word)
    ensures IsSensitiveKey(before + guise + after)
  {
    hide Normalised, IsSensitiveKey;
    if word in CREDENTIAL_WORDS { CredentialsAreListed(word); } else { OthersAreListed(word); }
    assert word in SENSITIVE_KEY_PATTERNS;
    SensitiveInAnyGuise(before, guise, after, word);
  }
}
