/** The subdomain flag of a key, by bytes. */
module VerdictLaws {
  import opened Text
  import opened Spacing
  import opened Verdict

  /** With t=s in its key, a signature whose identity is local@domain, or domain alone, is wrong exactly when this domain is
      not that of the signature, letter case apart; without t=s, or without an identity, it never is. */
  lemma SubdomainMeans(s: SigInfo, local: string, domain: string)
    requires s.tags.Some?
    ensures !s.nosubdomain || s.tags.value.identity.None? ==> !WrongSubdomain(s)
    ensures s.nosubdomain && s.tags.value.identity == Some(local + ['@'] + domain) && '@' !in local ==>
              (WrongSubdomain(s) <==> !Alike(domain, s.tags.value.domain))
    ensures s.nosubdomain && s.tags.value.identity == Some(domain) && '@' !in domain ==>
              (WrongSubdomain(s) <==> !Alike(domain, s.tags.value.domain))
  {
    hide Fold;
    FoldIs(domain, s.tags.value.domain);
    if '@' !in local {
      TokenLengthIs(local, ['@'] + domain, '@');
      assert local + (['@'] + domain) == local + ['@'] + domain;
      assert (local + ['@'] + domain)[|local| + 1..] == domain;
    }
    if '@' !in domain {
      TokenLengthIs(domain, "", '@');
      assert domain + "" == domain;
    }
  }
}
