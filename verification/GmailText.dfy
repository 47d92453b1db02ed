/** Argument checks, limits and failure codes shared by the Gmail server's components. */
module GmailText {
  import opened Wrappers
  import opened Characters

  const OUTPUT_MAXIMUM_BYTES := 1048576
  const UPSTREAM_MAXIMUM_BYTES := 8388608

  /** The stable codes, with the typed absence that carries `gmail.provider_rejected` outside. */
  datatype Code =
    | ArgumentsInvalid
    | ProviderOutputInvalid
    | ProviderUnavailable
    | ProviderRejected
    | ResourceNotFound
    | CredentialRejected
    | RateLimited
    | OutcomeUnknown

  /** What `_required_text` lets through. */
  predicate RequiredText(s: string, maximum: nat) {
    !Blank(s) && |s| <= maximum && '\0' !in s
  }

  /** What `_text` lets through. */
  predicate ProviderText(s: string, maximum: nat) {
    s != "" && |s| <= maximum && '\0' !in s
  }

  predicate IsHistoryId(s: string) {
    1 <= |s| <= 20 && Digits(s)
  }

  predicate IsDigest(s: string) {
    |s| == 64 && forall i | 0 <= i < |s| :: '0' <= s[i] <= '9' || 'a' <= s[i] <= 'f'
  }

  lemma HistoryIdIsText(s: string)
    requires IsHistoryId(s)
    ensures RequiredText(s, 20) && ProviderText(s, 20)
  {
    assert !IsSpace(s[0]);
  }
}
