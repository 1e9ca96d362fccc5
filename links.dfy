/** The link-set assembly of `extract_links`: every raw match of the two
    scans is resolved against the page URL, collected in a set, and the set
    is returned sorted. The scans themselves are given as their match
    sequences, and the URL resolver (`urljoin`) as the function `resolve`. */
module Links {
  import opened StringOrder
  import opened Scan

  /** The set of URLs the matches resolve to. */
  ghost function Resolved(baseUrl: string, matches: seq<string>, resolve: (string, string) -> string): set<string>
  {
    set m | m in matches :: resolve(baseUrl, m)
  }

  /** Resolving two scans together gives the union of resolving each. */
  lemma ResolvedAppend(baseUrl: string, a: seq<string>, b: seq<string>, resolve: (string, string) -> string)
    ensures Resolved(baseUrl, a + b, resolve) == Resolved(baseUrl, a, resolve) + Resolved(baseUrl, b, resolve)
  {
    assert forall m :: m in a + b <==> m in a || m in b;
  }

  /** `extract_links(html, base_url)`, with the matches of the attribute scan
      and of the bare-URL scan given in the order `findall` returns them. */
  method ExtractLinks(attributeMatches: seq<string>, absoluteMatches: seq<string>,
                      baseUrl: string, resolve: (string, string) -> string)
    returns (links: seq<string>)
    ensures StrictlyIncreasing(links)
    ensures IsSortingOf(links, Resolved(baseUrl, attributeMatches + absoluteMatches, resolve))
    ensures forall u :: u in links <==>
      exists m :: (m in attributeMatches || m in absoluteMatches) && u == resolve(baseUrl, m)
    ensures |links| <= |attributeMatches| + |absoluteMatches|
    ensures attributeMatches == [] && absoluteMatches == [] ==> links == []
  {
    var found: set<string> := {};

    for i := 0 to |attributeMatches|
      invariant found == Resolved(baseUrl, attributeMatches[..i], resolve)
    {
      assert attributeMatches[..i + 1] == attributeMatches[..i] + [attributeMatches[i]];
      ResolvedAppend(baseUrl, attributeMatches[..i], [attributeMatches[i]], resolve);
      var resolved := resolve(baseUrl, attributeMatches[i]);
      found := found + {resolved};
    }
    assert attributeMatches[..|attributeMatches|] == attributeMatches;

    for i := 0 to |absoluteMatches|
      invariant found == Resolved(baseUrl, attributeMatches + absoluteMatches[..i], resolve)
    {
      assert attributeMatches + absoluteMatches[..i + 1]
          == (attributeMatches + absoluteMatches[..i]) + [absoluteMatches[i]];
      ResolvedAppend(baseUrl, attributeMatches + absoluteMatches[..i], [absoluteMatches[i]], resolve);
      var resolved := resolve(baseUrl, absoluteMatches[i]);
      found := found + {resolved};
    }
    assert absoluteMatches[..|absoluteMatches|] == absoluteMatches;

    links := SortedList(found);

    SortingLength(links, found);
    ResolvedSize(baseUrl, attributeMatches + absoluteMatches, resolve);
    forall u ensures u in links <==>
      exists m :: (m in attributeMatches || m in absoluteMatches) && u == resolve(baseUrl, m)
    {
      assert u in links <==> u in found;
      if u in found {
        var m :| m in attributeMatches + absoluteMatches && u == resolve(baseUrl, m);
        assert m in attributeMatches || m in absoluteMatches;
      }
    }
  }

  /** There are no more resolved URLs than matches. */
  lemma {:induction false} ResolvedSize(baseUrl: string, matches: seq<string>, resolve: (string, string) -> string)
    ensures |Resolved(baseUrl, matches, resolve)| <= |matches|
  {
    if matches != [] {
      var n := |matches| - 1;
      assert matches == matches[..n] + [matches[n]];
      ResolvedAppend(baseUrl, matches[..n], [matches[n]], resolve);
      ResolvedSize(baseUrl, matches[..n], resolve);
      assert Resolved(baseUrl, [matches[n]], resolve) == {resolve(baseUrl, matches[n])};
    } else {
      assert Resolved(baseUrl, matches, resolve) == {};
    }
  }

  /** A URL found by both scans is listed once, and the scans' order does not
      matter: any two listings of the same matches are the same sequence. */
  lemma ScanOrderIrrelevant(baseUrl: string, a: seq<string>, b: seq<string>,
                            resolve: (string, string) -> string,
                            links1: seq<string>, links2: seq<string>)
    requires IsSortingOf(links1, Resolved(baseUrl, a + b, resolve))
    requires IsSortingOf(links2, Resolved(baseUrl, b + a, resolve))
    ensures links1 == links2
  {
    ResolvedAppend(baseUrl, a, b, resolve);
    ResolvedAppend(baseUrl, b, a, resolve);
    SortingUnique(links1, links2, Resolved(baseUrl, a + b, resolve));
  }

  /** `extract_links(html, base_url)` on the page text itself. `sep` says
      what the attribute scan reads around `=`: the pattern as written
      demands a backslash there, the intended one optional whitespace
      (see Scan.Separator). */
  method ExtractPageLinks(html: string, baseUrl: string, resolve: (string, string) -> string, sep: Separator)
    returns (links: seq<string>)
    ensures StrictlyIncreasing(links)
    ensures forall u :: u in links <==>
      exists m :: (m in AttributeScan(html, 0, sep) || m in AbsoluteMatches(html)) && u == resolve(baseUrl, m)
    ensures forall u :: u in links ==> exists m :: HasAudioTail(m) && u == resolve(baseUrl, m)
    ensures |links| <= |AttributeScan(html, 0, sep)| + |AbsoluteMatches(html)|
    ensures html == "" ==> links == []
  {
    EmptyPageNoMatches(sep);
    links := ExtractLinks(AttributeScan(html, 0, sep), AbsoluteMatches(html), baseUrl, resolve);
  }

  /** As written, the page `<a href="move.mp3">` yields no link at all. */
  method AnchorLinksAsWritten(html: string, baseUrl: string, resolve: (string, string) -> string)
    returns (links: seq<string>)
    requires html == Anchor
    ensures links == []
  {
    AnchorMissedAsWritten();
    links := ExtractPageLinks(html, baseUrl, resolve, AsWritten);
  }

  /** With optional whitespace around `=`, the same page yields exactly the
      anchor's target resolved against the page URL. */
  method AnchorLinksCorrected(html: string, baseUrl: string, resolve: (string, string) -> string)
    returns (links: seq<string>)
    requires html == Anchor
    ensures links == [resolve(baseUrl, "move.mp3")]
  {
    AnchorMissedAsWritten();
    AnchorFoundWithSpaces();
    links := ExtractPageLinks(html, baseUrl, resolve, Spaces);
    OneMatchOneLink(links, AttributeScan(html, 0, Spaces), AbsoluteMatches(html), "move.mp3", baseUrl, resolve);
  }

  /** Strictly increasing links drawn from the single match `m`: just its resolution. */
  lemma OneMatchOneLink(links: seq<string>, a: seq<string>, b: seq<string>, m: string,
                        baseUrl: string, resolve: (string, string) -> string)
    requires a == [m] && b == []
    requires StrictlyIncreasing(links)
    requires forall u :: u in links <==> exists m :: (m in a || m in b) && u == resolve(baseUrl, m)
    ensures links == [resolve(baseUrl, m)]
  {
    var x := resolve(baseUrl, m);
    assert m in a;
    assert x in links;
    if |links| >= 2 {
      assert links[0] in links && links[1] in links;
      assert Less(links[0], links[1]);
      LessIrreflexive(x);
    }
  }
}
