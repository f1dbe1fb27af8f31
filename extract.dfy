/**
 * The extractor proper: every raw match of the subdomain pattern, with
 * duplicates removed. The raw matches are collected into a set and the set is
 * then listed in whatever order its iteration yields.
 */
module Extractor {
  import opened Common
  import opened SubdomainPattern

  /** The first loop: every raw match becomes a key of the set. */
  method CollectKeys(matches: seq<string>) returns (unique: set<string>)
    ensures unique == Elems(matches)
    ensures |unique| <= |matches|
  {
    unique := {};
    var i := 0;
    while i < |matches|
      invariant 0 <= i <= |matches|
      invariant unique == Elems(matches[..i])
      invariant |unique| <= i
    {
      ElemsPrefixStep(matches, i);
      unique := unique + {matches[i]};
      i := i + 1;
    }
    assert matches[..i] == matches;
  }

  /** The second loop: the keys are listed one by one, in an order the model leaves open. */
  method ListKeys(unique: set<string>) returns (result: seq<string>)
    ensures NoDuplicates(result)
    ensures Elems(result) == unique
    ensures |result| == |unique|
  {
    result := [];
    var rest := unique;
    while rest != {}
      invariant NoDuplicates(result)
      invariant Elems(result) !! rest
      invariant Elems(result) + rest == unique
      invariant |result| + |rest| == |unique|
      decreases |rest|
    {
      var sub :| sub in rest;
      NoDuplicatesAppend(result, sub);
      result := result + [sub];
      rest := rest - {sub};
    }
  }

  /**
   * The distinct raw matches of the pattern for `domain` in `content`, each
   * exactly once, in an unspecified order: all of the right shape, all found
   * in `content`, and none at all when `domain` does not occur in `content`.
   */
  method FindSubdomains(content: string, domain: string) returns (result: seq<string>)
    ensures NoDuplicates(result)
    ensures Elems(result) == Elems(FindAll(content, domain))
    ensures forall m :: m in result ==> IsSubdomainOf(m, domain) && IsSubstring(m, content)
    ensures |result| <= |FindAll(content, domain)|
    ensures (forall i: nat :: !OccursAt(content, i, domain)) ==> result == []
  {
    var matches := FindAll(content, domain);
    var unique := CollectKeys(matches);
    result := ListKeys(unique);
    FindAllShape(content, domain);
    forall m | m in result
      ensures IsSubdomainOf(m, domain) && IsSubstring(m, content)
    {
      assert m in Elems(matches);
    }
    if forall i: nat :: !OccursAt(content, i, domain) {
      FindAllWithoutDomain(content, domain);
      assert |unique| == 0;
    }
  }

  /**
   * The worked example through the extractor: for the body
   * `go to a.b.ford.com and www.ford.com today` and `ford.com`, the
   * subdomains found are exactly `a.b.ford.com` and `www.ford.com`, once each.
   */
  method FindSubdomainsFordExample(d: string) returns (r: seq<string>)
    requires d == "ford.com"
    ensures NoDuplicates(r)
    ensures Elems(r) == {"a.b.ford.com", "www.ford.com"}
  {
    r := FindSubdomains(FordBody, d);
    FordElems(d);
  }

  /** The raw matches of the worked example, as a set. */
  lemma FordElems(d: string)
    requires d == "ford.com"
    ensures Elems(FindAll(FordBody, d)) == {"a.b.ford.com", "www.ford.com"}
  {
    FindAllFordExample(d);
    ElemsOfPair(FindAll(FordBody, d), "a.b.ford.com", "www.ford.com");
  }
}
