/** The domain blacklist and `filter_links`: removing every string that
    contains one of the blacklisted domain names. */
module DomainFilter {
  import opened Text

  /** The fixed blacklist, in the source's order. Every entry is
      lower-case. */
  const BlacklistedDomains: seq<string> :=
    ["coursera.org", "udemy.com", "edx.org", "skillshare.com", "khanacademy.org", "simplilearn.com"]

  /** Some blacklisted name occurs in `s` as a substring, anywhere and with
      exactly the same case: the test `filter_links` and the paper loop apply
      to a link. */
  predicate IsBlacklisted(s: string) {
    exists k :: 0 <= k < |BlacklistedDomains| && Contains(s, BlacklistedDomains[k])
  }

  lemma BlacklistIsLowerCase()
    ensures forall k :: 0 <= k < |BlacklistedDomains| ==> IsLowerCase(BlacklistedDomains[k])
  {
    forall k | 0 <= k < |BlacklistedDomains|
      ensures IsLowerCase(BlacklistedDomains[k])
    {
      var d := BlacklistedDomains[k];
      assert d == "coursera.org" || d == "udemy.com" || d == "edx.org"
        || d == "skillshare.com" || d == "khanacademy.org" || d == "simplilearn.com";
    }
  }

  /** Every blacklisted name is at least seven characters long. */
  lemma BlacklistEntriesAreLong()
    ensures forall k :: 0 <= k < |BlacklistedDomains| ==> |BlacklistedDomains[k]| >= 7
  {
  }

  /** A string shorter than every blacklisted name (such as the placeholder
      link `"#"`) is never blacklisted. */
  lemma {:induction false} ShortStringIsNotBlacklisted(s: string)
    requires |s| < 7
    ensures !IsBlacklisted(s)
  {
    BlacklistEntriesAreLong();
    forall k | 0 <= k < |BlacklistedDomains|
      ensures !Contains(s, BlacklistedDomains[k])
    {
      ContainsNeedsRoom(s, BlacklistedDomains[k]);
    }
  }

  /** `filter_links`: the links that are not blacklisted, in their
      original order. */
  function FilterLinks(links: seq<string>): (kept: seq<string>)
    ensures |kept| <= |links|
    ensures forall x :: x in kept ==> x in links && !IsBlacklisted(x)
    ensures forall x :: x in links && !IsBlacklisted(x) ==> x in kept
  {
    if links == [] then []
    else if IsBlacklisted(links[0]) then FilterLinks(links[1..])
    else [links[0]] + FilterLinks(links[1..])
  }

  /** `r` is obtained from `s` by deleting elements, keeping the order of
      the rest. */
  ghost predicate IsSubsequence<T>(r: seq<T>, s: seq<T>)
    decreases |s|
  {
    if r == [] then true
    else if s == [] then false
    else (r[0] == s[0] && IsSubsequence(r[1..], s[1..])) || IsSubsequence(r, s[1..])
  }

  lemma {:induction false} FilterLinksIsSubsequence(links: seq<string>)
    ensures IsSubsequence(FilterLinks(links), links)
  {
    if links != [] {
      FilterLinksIsSubsequence(links[1..]);
      if !IsBlacklisted(links[0]) {
        assert FilterLinks(links)[1..] == FilterLinks(links[1..]);
      } else if FilterLinks(links) != [] {
        assert IsSubsequence(FilterLinks(links), links[1..]);
      }
    }
  }

  /** Each link is kept exactly as often as it occurs in the input when it is
      not blacklisted, and never when it is: with `FilterLinksIsSubsequence`,
      the output is the input filtered by the blacklist and nothing else. */
  lemma {:induction false} FilterLinksMultiplicity(links: seq<string>, x: string)
    ensures multiset(FilterLinks(links))[x] == if IsBlacklisted(x) then 0 else multiset(links)[x]
  {
    if links != [] {
      FilterLinksMultiplicity(links[1..], x);
      assert links == [links[0]] + links[1..];
    }
  }

  lemma {:induction false} FilterLinksAppend(a: seq<string>, b: seq<string>)
    ensures FilterLinks(a + b) == FilterLinks(a) + FilterLinks(b)
  {
    if a != [] {
      assert (a + b)[1..] == a[1..] + b;
      FilterLinksAppend(a[1..], b);
    } else {
      assert a + b == b;
    }
  }

  /** A list with no blacklisted link passes through unchanged. */
  lemma {:induction false} FilterLinksKeepsAllowed(links: seq<string>)
    requires forall i :: 0 <= i < |links| ==> !IsBlacklisted(links[i])
    ensures FilterLinks(links) == links
  {
    if links != [] {
      FilterLinksKeepsAllowed(links[1..]);
      assert [links[0]] + links[1..] == links;
    }
  }

  lemma FilterLinksIdempotent(links: seq<string>)
    ensures FilterLinks(FilterLinks(links)) == FilterLinks(links)
    ensures FilterLinks([]) == []
  {
    var kept := FilterLinks(links);
    assert forall i :: 0 <= i < |kept| ==> kept[i] in kept;
    FilterLinksKeepsAllowed(kept);
  }
}
