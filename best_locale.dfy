/** Locale negotiation of the Carbon integration
    (packages/integration-carbon/src/utils/get-best-locale.ts): the user's
    locales are tried in order; an exact match wins at once, otherwise the
    last available locale that starts with the user locale's language does;
    with no match at all the first available locale is taken. The TypeScript
    returns `undefined` there when nothing is available; that is `None`. */
module BestLocale {
  import opened Wrappers
  import opened Text
  import opened Formatter

  /** `tag.split('-')[0]`: everything before the first `-`. */
  function Language(tag: string): (r: string)
    ensures StartsWith(tag, r) && '-' !in r
    ensures r == tag || tag[|r|] == '-'
  {
    if tag == [] || tag[0] == '-' then []
    else
      var rest := Language(tag[1..]);
      assert tag[1..][..|rest|] == tag[1..|rest| + 1];
      [tag[0]] + rest
  }

  /** The last of `available` that starts with `language`. */
  function LastPrefixMatch(available: seq<string>, language: string): (r: Option<string>)
    ensures r.Some? ==> exists k :: 0 <= k < |available| && available[k] == r.value && StartsWith(r.value, language)
                                   && forall k' :: k < k' < |available| ==> !StartsWith(available[k'], language)
    ensures r.None? ==> forall k :: 0 <= k < |available| ==> !StartsWith(available[k], language)
  {
    if available == [] then None
    else
      var last := available[|available| - 1];
      if StartsWith(last, language) then Some(last)
      else
        var prev := LastPrefixMatch(available[..|available| - 1], language);
        assert forall k :: 0 <= k < |available| - 1 ==> available[..|available| - 1][k] == available[k];
        prev
  }

  /** The user locale is neither available nor matched by language (a match
      that is the empty string is falsy and does not count). */
  predicate Unmatched(available: seq<string>, user: string) {
    user !in available && !Truthy(LastPrefixMatch(available, Language(user)))
  }

  /** `getBestLocale` from the `i`-th user locale on. */
  function Best(available: seq<string>, users: seq<string>, i: nat): (r: Option<string>)
    requires i <= |users|
    ensures available == [] <==> r.None?
    ensures r.Some? ==> r.value in available
    decreases |users| - i
  {
    if i == |users| then (if available == [] then None else Some(available[0]))
    else if users[i] in available then Some(users[i])
    else
      var language := LastPrefixMatch(available, Language(users[i]));
      if Truthy(language) then language else Best(available, users, i + 1)
  }

  /** `getBestLocale`. */
  method GetBestLocale(available: seq<string>, users: seq<string>) returns (r: Option<string>)
    ensures r == Best(available, users, 0)
  {
    var i := 0;
    while i < |users|
      invariant i <= |users|
      invariant Best(available, users, 0) == Best(available, users, i)
    {
      var user := users[i];
      var language := Language(user);
      var languageMatch: Option<string> := None;
      var j := 0;
      while j < |available|
        invariant j <= |available|
        invariant user !in available[..j]
        invariant languageMatch == LastPrefixMatch(available[..j], language)
      {
        if available[j] == user {
          return Some(available[j]);
        }
        assert available[..j + 1][..j] == available[..j];
        if StartsWith(available[j], language) {
          languageMatch := Some(available[j]);
        }
        j := j + 1;
      }
      assert available[..j] == available;
      if Truthy(languageMatch) {
        return languageMatch;
      }
      i := i + 1;
    }
    if available == [] {
      return None;
    }
    return Some(available[0]);
  }

  /** The first user locale that matches at all decides: exactly, if it is
      available. */
  lemma {:induction false} FirstMatchingUserWins(available: seq<string>, users: seq<string>, k: nat)
    requires k < |users| && users[k] in available
    requires forall j :: 0 <= j < k ==> Unmatched(available, users[j])
    ensures Best(available, users, 0) == Some(users[k])
  {
    LaterStart(available, users, 0, k);
  }

  /** Otherwise by language: the last available locale starting with its
      language. */
  lemma FirstLanguageMatchWins(available: seq<string>, users: seq<string>, k: nat)
    requires k < |users| && users[k] !in available && Truthy(LastPrefixMatch(available, Language(users[k])))
    requires forall j :: 0 <= j < k ==> Unmatched(available, users[j])
    ensures var r := Best(available, users, 0);
      r == LastPrefixMatch(available, Language(users[k]))
      && StartsWith(r.value, Language(users[k]))
  {
    LaterStart(available, users, 0, k);
  }

  /** With no user locale matched, the first available locale is taken. */
  lemma NoMatchTakesFirst(available: seq<string>, users: seq<string>)
    requires available != []
    requires forall j :: 0 <= j < |users| ==> Unmatched(available, users[j])
    ensures Best(available, users, 0) == Some(available[0])
  {
    LaterStart(available, users, 0, |users|);
  }

  /** Unmatched user locales are skipped. */
  lemma {:induction false} LaterStart(available: seq<string>, users: seq<string>, i: nat, k: nat)
    requires i <= k <= |users|
    requires forall j :: i <= j < k ==> Unmatched(available, users[j])
    ensures Best(available, users, i) == Best(available, users, k)
    decreases k - i
  {
    if i < k {
      LaterStart(available, users, i + 1, k);
    }
  }

  lemma LanguageExamples()
    ensures Language("en-GB") == "en"
    ensures Language("fr") == "fr"
    ensures Language("") == ""
  {
    assert Language("B") == "B";
    assert Language("GB") == "GB";
    assert Language("-GB") == "";
    assert Language("n-GB") == "n";
    assert Language("r") == "r";
  }
}
