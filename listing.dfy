/** `get_links_to_articles_of_appropriate_type`: from the `<article>` nodes of
    the listing page, keep the link of every node whose category label equals
    the requested article type. The parsed page is abstracted to the sequence
    of its article nodes, each reduced to the two values the filter reads. */
module Listing {

  /** One `<article>` node: the text of its `span.c-meta__type` and the `href`
      of its first `<a>`. */
  datatype ArticleNode = ArticleNode(category: string, href: string)

  /** The list comprehension of the source: the links of the nodes whose
      category is exactly `articleType`, in document order. */
  function LinksOfType(articles: seq<ArticleNode>, articleType: string): (links: seq<string>)
    ensures |links| <= |articles|
    ensures links == [] <==> forall i :: 0 <= i < |articles| ==> articles[i].category != articleType
  {
    if articles == [] then []
    else
      var last := articles[|articles| - 1];
      var init := articles[..|articles| - 1];
      var before := LinksOfType(init, articleType);
      assert forall i :: 0 <= i < |init| ==> init[i] == articles[i];
      before + (if last.category == articleType then [last.href] else [])
  }

  /** The positions of the nodes whose category is exactly `articleType`,
      in increasing order. */
  function MatchingPositions(articles: seq<ArticleNode>, articleType: string): (ps: seq<nat>)
    ensures forall k :: 0 <= k < |ps| ==> ps[k] < |articles| && articles[ps[k]].category == articleType
    ensures forall k, l :: 0 <= k < l < |ps| ==> ps[k] < ps[l]
    ensures forall i :: 0 <= i < |articles| && articles[i].category == articleType ==> i in ps
  {
    if articles == [] then []
    else
      var n := |articles| - 1;
      var init := articles[..n];
      var before := MatchingPositions(init, articleType);
      assert forall i :: 0 <= i < n ==> init[i] == articles[i];
      before + (if articles[n].category == articleType then [n] else [])
  }

  /** The filter returns one link per matching node, in document order: the
      k-th link is the href of the k-th matching node. */
  lemma {:induction false} LinksAreMatchingHrefs(articles: seq<ArticleNode>, articleType: string)
    ensures |LinksOfType(articles, articleType)| == |MatchingPositions(articles, articleType)|
    ensures forall k :: 0 <= k < |LinksOfType(articles, articleType)| ==>
      LinksOfType(articles, articleType)[k] == articles[MatchingPositions(articles, articleType)[k]].href
  {
    if articles != [] {
      var n := |articles| - 1;
      var init := articles[..n];
      LinksAreMatchingHrefs(init, articleType);
      var links, ps := LinksOfType(init, articleType), MatchingPositions(init, articleType);
      var links', ps' := LinksOfType(articles, articleType), MatchingPositions(articles, articleType);
      if articles[n].category == articleType {
        assert links' == links + [articles[n].href] && ps' == ps + [n];
      } else {
        assert links' == links && ps' == ps;
      }
      forall k | 0 <= k < |links'| ensures links'[k] == articles[ps'[k]].href {
        if k < |links| {
          assert links'[k] == links[k] && ps'[k] == ps[k] && init[ps[k]] == articles[ps[k]];
        }
      }
    }
  }

  /** A link is returned exactly when some node of that category carries it. */
  lemma {:induction false} LinksOfTypeMembership(articles: seq<ArticleNode>, articleType: string, href: string)
    ensures href in LinksOfType(articles, articleType) <==>
      exists i :: 0 <= i < |articles| && articles[i].category == articleType && articles[i].href == href
  {
    if articles != [] {
      var n := |articles| - 1;
      var init := articles[..n];
      LinksOfTypeMembership(init, articleType, href);
      var before := LinksOfType(init, articleType);
      assert LinksOfType(articles, articleType)
        == before + (if articles[n].category == articleType then [articles[n].href] else []);
      if href in before {
        var i :| 0 <= i < n && init[i].category == articleType && init[i].href == href;
        assert articles[i] == init[i];
      }
      if exists i :: 0 <= i < |articles| && articles[i].category == articleType && articles[i].href == href {
        var i :| 0 <= i < |articles| && articles[i].category == articleType && articles[i].href == href;
        if i < n {
          assert init[i] == articles[i];
        }
      }
    }
  }

  /** Filtering a listing made of two parts filters each part and keeps
      their order. */
  lemma {:induction false} LinksOfTypeAppend(a: seq<ArticleNode>, b: seq<ArticleNode>, articleType: string)
    ensures LinksOfType(a + b, articleType) == LinksOfType(a, articleType) + LinksOfType(b, articleType)
    decreases |b|
  {
    if b == [] {
      assert a + b == a;
    } else {
      var n := |b| - 1;
      assert (a + b)[..|a + b| - 1] == a + b[..n];
      assert (a + b)[|a + b| - 1] == b[n];
      LinksOfTypeAppend(a, b[..n], articleType);
    }
  }

  /** The link of a node whose category does not match is never read:
      replacing it by any other string leaves the result unchanged. */
  lemma UnmatchedHrefIgnored(articles: seq<ArticleNode>, articleType: string, i: nat, href: string)
    requires i < |articles| && articles[i].category != articleType
    ensures LinksOfType(articles[i := ArticleNode(articles[i].category, href)], articleType)
      == LinksOfType(articles, articleType)
  {
    var other := articles[i := ArticleNode(articles[i].category, href)];
    var pre, post := articles[..i], articles[i + 1..];
    assert articles == pre + [articles[i]] + post;
    assert other == pre + [other[i]] + post;
    assert LinksOfType([articles[i]], articleType) == [] == LinksOfType([other[i]], articleType) by {
      assert [articles[i]][..0] == [] && [other[i]][..0] == [];
    }
    LinksOfTypeAppend(pre, [articles[i]], articleType);
    LinksOfTypeAppend(pre + [articles[i]], post, articleType);
    LinksOfTypeAppend(pre, [other[i]], articleType);
    LinksOfTypeAppend(pre + [other[i]], post, articleType);
  }

  /** A listing labelled "News", "Research", "News" yields the first and
      third links for "News", and nothing from the "Research" node. */
  lemma NewsExample()
    ensures LinksOfType([ArticleNode("News", "/a1"), ArticleNode("Research", "/a2"), ArticleNode("News", "/a3")], "News")
      == ["/a1", "/a3"]
  {
    var listing := [ArticleNode("News", "/a1"), ArticleNode("Research", "/a2"), ArticleNode("News", "/a3")];
    assert listing[..2] == [ArticleNode("News", "/a1"), ArticleNode("Research", "/a2")];
    assert listing[..2][..1] == [ArticleNode("News", "/a1")];
    assert listing[..2][..1][..0] == [];
  }

  /** The comparison is exact: a node labelled "news" is not a "News" node. */
  lemma CaseSensitiveExample()
    ensures LinksOfType([ArticleNode("news", "/a1"), ArticleNode("News", "/a2")], "News") == ["/a2"]
  {
    var listing := [ArticleNode("news", "/a1"), ArticleNode("News", "/a2")];
    assert listing[..1] == [ArticleNode("news", "/a1")] && listing[..1][..0] == [];
    assert "news" != "News" by { assert "news"[0] != "News"[0]; }
  }
}
