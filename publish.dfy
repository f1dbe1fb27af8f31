/**
 * The run-wide de-duplication of found subdomains. Each fetched page's matches
 * are published under a lock: a match not seen before in the run is marked as
 * seen and sent to the output; one already seen is skipped. Taken one page at
 * a time, in the order the pages take the lock, every subdomain reaches the
 * output at most once.
 */
module Publishing {
  import opened Common
  import opened SubdomainPattern
  import opened Extractor

  /**
   * What one publish step sends to the output: the values of `matches` that
   * are neither in `seen` nor earlier in `matches`, in the order of `matches`.
   */
  function Fresh(matches: seq<string>, seen: set<string>): (out: seq<string>)
    ensures |out| <= |matches|
  {
    if matches == [] then []
    else
      var init := matches[..|matches| - 1];
      var m := matches[|matches| - 1];
      Fresh(init, seen) + (if m in seen || m in init then [] else [m])
  }

  /** A publish step sends exactly the matches not seen before. */
  lemma {:induction false} FreshElems(matches: seq<string>, seen: set<string>)
    ensures Elems(Fresh(matches, seen)) == Elems(matches) - seen
  {
    if matches != [] {
      var init := matches[..|matches| - 1];
      var m := matches[|matches| - 1];
      FreshElems(init, seen);
      assert matches == init + [m];
      ElemsAppend(init, m);
      if !(m in seen || m in init) {
        ElemsAppend(Fresh(init, seen), m);
      } else {
        assert Fresh(matches, seen) == Fresh(init, seen) + [];
        if m in init {
          assert m in Elems(init);
          assert Elems(matches) == Elems(init) + {m} == Elems(init);
        } else {
          assert Elems(matches) - seen == Elems(init) - seen;
        }
      }
    }
  }

  /** A publish step sends nothing twice, and nothing already seen. */
  lemma {:induction false} FreshNoDuplicates(matches: seq<string>, seen: set<string>)
    ensures NoDuplicates(Fresh(matches, seen))
    ensures Elems(Fresh(matches, seen)) !! seen
  {
    FreshElems(matches, seen);
    if matches != [] {
      var init := matches[..|matches| - 1];
      var m := matches[|matches| - 1];
      FreshNoDuplicates(init, seen);
      FreshElems(init, seen);
      if !(m in seen || m in init) {
        assert m !in Elems(Fresh(init, seen));
      }
    }
  }

  /**
   * Publishing two batches one after the other sends what publishing their
   * concatenation sends.
   */
  lemma {:induction false} FreshAppend(a: seq<string>, b: seq<string>, seen: set<string>)
    ensures Fresh(a + b, seen) == Fresh(a, seen) + Fresh(b, seen + Elems(a))
    decreases |b|
  {
    if b == [] {
      assert a + b == a;
    } else {
      var b' := b[..|b| - 1];
      var m := b[|b| - 1];
      assert (a + b)[..|a + b| - 1] == a + b';
      assert (a + b)[|a + b| - 1] == m;
      FreshAppend(a, b', seen);
      assert m in a + b' <==> m in a || m in b';
    }
  }

  /** Publishing one more match extends what is sent by that match, unless it was seen or met before. */
  lemma FreshStep(matches: seq<string>, i: nat, seen: set<string>)
    requires i < |matches|
    ensures Fresh(matches[..i + 1], seen) == Fresh(matches[..i], seen) +
      (if matches[i] in seen || matches[i] in matches[..i] then [] else [matches[i]])
  {
    assert matches[..i + 1][..i] == matches[..i];
    assert matches[..i + 1][i] == matches[i];
  }

  /**
   * Publishing the matches up to `i` and then match `i` alone is publishing
   * the matches up to `i + 1`: the loop invariant of `Publish` carries over.
   */
  lemma PublishStep(matches: seq<string>, i: nat, seen0: set<string>, emitted0: seq<string>,
                    seen: set<string>, emitted: seq<string>)
    requires i < |matches|
    requires seen == seen0 + Elems(matches[..i])
    requires emitted == emitted0 + Fresh(matches[..i], seen0)
    ensures seen + {matches[i]} == seen0 + Elems(matches[..i + 1])
    ensures emitted + (if matches[i] in seen then [] else [matches[i]])
      == emitted0 + Fresh(matches[..i + 1], seen0)
  {
    FreshStep(matches, i, seen0);
    ElemsPrefixStep(matches, i);
    assert matches[i] in Elems(matches[..i]) <==> matches[i] in matches[..i];
  }

  /** The run-wide state of the publish step: the `seen` set and the output so far. */
  class Publisher {
    var seen: set<string>
    var emitted: seq<string>

    /** Everything output is output once, and `seen` holds exactly what has been output. */
    predicate Valid()
      reads this
    {
      NoDuplicates(emitted) && seen == Elems(emitted)
    }

    constructor()
      ensures Valid()
      ensures seen == {} && emitted == []
    {
      seen := {};
      emitted := [];
    }

    /** One match: sent and marked as seen unless it has been seen before. */
    method PublishOne(m: string)
      requires Valid()
      modifies this
      ensures Valid()
      ensures seen == old(seen) + {m}
      ensures emitted == old(emitted) + (if m in old(seen) then [] else [m])
    {
      if m !in seen {
        NoDuplicatesAppend(emitted, m);
        seen := seen + {m};
        emitted := emitted + [m];
      }
    }

    /** One page's matches, published while holding the lock. */
    method Publish(matches: seq<string>)
      requires Valid()
      modifies this
      ensures Valid()
      ensures seen == old(seen) + Elems(matches)
      ensures emitted == old(emitted) + Fresh(matches, old(seen))
    {
      var i := 0;
      while i < |matches|
        invariant 0 <= i <= |matches|
        invariant Valid()
        invariant seen == old(seen) + Elems(matches[..i])
        invariant emitted == old(emitted) + Fresh(matches[..i], old(seen))
      {
        PublishStep(matches, i, old(seen), old(emitted), seen, emitted);
        PublishOne(matches[i]);
        i := i + 1;
      }
      assert matches[..i] == matches;
    }
  }

  /** Every subdomain found on the pages fetched successfully. */
  function AllMatches(pages: seq<Option<string>>, domain: string): (found: set<string>)
  {
    if pages == [] then {}
    else
      var page := pages[|pages| - 1];
      AllMatches(pages[..|pages| - 1], domain)
        + (if page.Some? then Elems(FindAll(page.value, domain)) else {})
  }

  /** Everything found on any page has the shape of a subdomain and occurs on that page. */
  lemma {:induction false} AllMatchesShape(pages: seq<Option<string>>, domain: string)
    ensures forall m :: m in AllMatches(pages, domain) ==>
      IsSubdomainOf(m, domain) && exists k :: 0 <= k < |pages| && pages[k].Some? && IsSubstring(m, pages[k].value)
  {
    if pages != [] {
      var init := pages[..|pages| - 1];
      var page := pages[|pages| - 1];
      AllMatchesShape(init, domain);
      if page.Some? {
        FindAllShape(page.value, domain);
      }
      forall m | m in AllMatches(pages, domain)
        ensures IsSubdomainOf(m, domain)
        ensures exists k :: 0 <= k < |pages| && pages[k].Some? && IsSubstring(m, pages[k].value)
      {
        if m in AllMatches(init, domain) {
          var k :| 0 <= k < |init| && init[k].Some? && IsSubstring(m, init[k].value);
          assert pages[k] == init[k];
        } else {
          assert page.Some? && m in FindAll(page.value, domain);
          assert pages[|pages| - 1] == page;
        }
      }
    }
  }

  /**
   * The whole run, one page at a time: `pages` holds the outcome of each
   * fetch in the order the fetching goroutines take the lock, `None` for a
   * fetch that failed. The output holds each subdomain found on any page,
   * exactly once.
   */
  method Run(pages: seq<Option<string>>, domain: string) returns (output: seq<string>)
    ensures NoDuplicates(output)
    ensures Elems(output) == AllMatches(pages, domain)
    ensures forall m :: m in output ==> IsSubdomainOf(m, domain)
  {
    var publisher := new Publisher();
    var i := 0;
    while i < |pages|
      invariant 0 <= i <= |pages|
      invariant publisher.Valid()
      invariant publisher.seen == AllMatches(pages[..i], domain)
    {
      assert pages[..i + 1][..i] == pages[..i];
      if pages[i].Some? {
        var matches := FindSubdomains(pages[i].value, domain);
        publisher.Publish(matches);
      }
      i := i + 1;
    }
    assert pages[..i] == pages;
    output := publisher.emitted;
    AllMatchesShape(pages, domain);
    forall m | m in output
      ensures IsSubdomainOf(m, domain)
    {
      assert m in Elems(output);
    }
  }
}
