/**
 * The post feed: a ban list, the tag filter sent with each page request, the filter applied
 * to the posts of a response, and the cursor that walks through fetched pages handing out
 * posts not seen before. The HTTP request and the XML parsing are outside the model: a
 * `Fetcher` stands for the server, mapping the tag filter and page number to the posts of
 * the response, each given by its `id`, `tags` and `file_url` attributes (None when absent).
 */
module PostsStore {
  import opened Options
  import opened Lists
  import opened Text

  /** Posts requested per page, and the cursor bound that triggers the next page. */
  const Limit := 100
  /** A post needs at least this many space-separated tags to be kept. */
  const MinTags := 10
  /** The exclusions every request carries. */
  const BaseFilter := "-video+-gif"

  datatype Post = Post(id: string, tags: seq<string>, fileUrl: string)

  /** A `<post>` element of the response, reduced to the attributes the store reads. */
  datatype RawPost = RawPost(id: Option<string>, tags: Option<string>, fileUrl: Option<string>)

  /** The store state: the current page's posts, ids handed out so far, bans, page and cursor. */
  datatype Feed = Feed(posts: seq<Post>, viewed: seq<string>, banList: seq<string>, currentPage: nat, currentIndex: nat)

  /** The server: for a tag filter and a page number, the `<post>` elements it answers with. */
  type Fetcher = (string, nat) -> seq<RawPost>

  /** `addToBanList`: the tag joins the ban list unless already there. */
  function AddToBanList(f: Feed, tag: string): (r: Feed)
    ensures tag in r.banList && f.banList <= r.banList && |r.banList| <= |f.banList| + 1
    ensures tag in f.banList ==> r == f
    ensures NoDups(f.banList) ==> NoDups(r.banList)
    ensures r.(banList := f.banList) == f
  {
    f.(banList := AddAbsent(f.banList, tag))
  }

  /** `removeFromBanList`: the ban list is spliced at the tag's first occurrence. */
  function RemoveFromBanList(f: Feed, tag: string): (r: Feed)
    ensures tag !in f.banList ==> r == f
    ensures tag in f.banList ==> r.banList == SpliceOut(f.banList, IndexOf(f.banList, tag))
    ensures multiset(r.banList) == multiset(f.banList) - multiset{tag}
    ensures NoDups(f.banList) ==> tag !in r.banList
    ensures r.(banList := f.banList) == f
  {
    assert NoDups(f.banList) ==> tag !in RemoveFirst(f.banList, tag) by {
      if NoDups(f.banList) {
        RemoveFirstNoDups(f.banList, tag);
      }
    }
    f.(banList := RemoveFirst(f.banList, tag))
  }

  /** Banning a tag that was not banned and then unbanning it restores the feed. */
  lemma UnbanUndoesBan(f: Feed, tag: string)
    requires tag !in f.banList
    ensures RemoveFromBanList(AddToBanList(f, tag), tag) == f
  {
    RemoveFirstUndoesAddAbsent(f.banList, tag);
  }

  /**
   * The `tags` request parameter built in `fetchPosts`: the base exclusions, then, when the
   * space-joined ban list is not empty, `+-` before each of its space-separated words.
   */
  function TagFilter(banList: seq<string>): (r: string)
    ensures BaseFilter <= r
    ensures |banList| == 0 ==> r == BaseFilter
    ensures banList == [""] ==> r == BaseFilter
    ensures |banList| > 0 && banList != [""] ==> r == BaseFilter + Exclusions(Split(Join(banList, " "), ' '))
  {
    JoinEmpty(banList, ' ');
    BaseFilter + BanSuffix(Join(banList, " "))
  }

  /** What the ban list appends to the filter: nothing, or `+-` before each space-separated word. */
  function BanSuffix(joined: string): (r: string)
    ensures r == "" <==> joined == ""
    ensures joined != "" ==> "+-" <= r
    ensures joined != "" && ' ' !in joined ==> r == "+-" + joined
    ensures joined != "" ==> r == Exclusions(Split(joined, ' '))
  {
    JoinExclusions(Split(joined, ' '));
    assert ' ' !in joined ==> Split(joined, ' ') == [joined] by {
      if ' ' !in joined {
        SplitNoSep(joined, ' ');
      }
    }
    if joined != "" then "+-" + Join(Split(joined, ' '), "+-") else ""
  }

  /** One `+-tag` term per tag, in order: the exclusion list as the ban list reads. */
  function Exclusions(tags: seq<string>): string {
    if |tags| == 0 then "" else "+-" + tags[0] + Exclusions(tags[1..])
  }

  lemma {:induction false} JoinExclusions(tags: seq<string>)
    requires |tags| > 0
    ensures "+-" + Join(tags, "+-") == Exclusions(tags)
  {
    if |tags| > 1 {
      JoinExclusions(tags[1..]);
    }
  }

  /**
   * When no banned tag contains a space (and the list is not a lone empty tag), the filter
   * is the base exclusions followed by `+-t` for each banned tag `t`, in ban-list order.
   */
  lemma TagFilterExcludesBans(banList: seq<string>)
    requires banList != [""]
    requires forall i :: 0 <= i < |banList| ==> ' ' !in banList[i]
    ensures TagFilter(banList) == BaseFilter + Exclusions(banList)
  {
    if |banList| > 0 {
      JoinEmpty(banList, ' ');
      SplitJoin(banList, ' ');
      JoinExclusions(banList);
    }
  }

  /** An attribute's value, `''` when it is missing (`getAttribute(...) || ''`). */
  function Attribute(a: Option<string>): string {
    a.GetOr("")
  }

  /**
   * The acceptance test of `fetchPosts`: a post is kept exactly when its id is non-empty and
   * its tag string holds at least nine spaces, that is, splits into at least ten tags.
   */
  function ParsePost(raw: RawPost): (r: Option<Post>)
    ensures r.Some? <==> Attribute(raw.id) != "" && multiset(Attribute(raw.tags))[' '] >= MinTags - 1
    ensures r.Some? ==>
      && r.value.id == Attribute(raw.id)
      && r.value.fileUrl == Attribute(raw.fileUrl)
      && |r.value.tags| >= MinTags
      && Join(r.value.tags, " ") == Attribute(raw.tags)
      && forall i :: 0 <= i < |r.value.tags| ==> ' ' !in r.value.tags[i]
  {
    var id := Attribute(raw.id);
    var tags := Split(Attribute(raw.tags), ' ');
    JoinSplit(Attribute(raw.tags), ' ');
    if id != "" && |tags| >= MinTags then Some(Post(id, tags, Attribute(raw.fileUrl))) else None
  }

  /** `join` undoes `split`. */
  lemma {:induction false} JoinSplit(s: string, sep: char)
    ensures Join(Split(s, sep), [sep]) == s
  {
    if |s| > 0 {
      JoinSplit(s[1..], sep);
      var rest := Split(s[1..], sep);
      assert [s[0]] + s[1..] == s;
      if s[0] != sep {
        JoinHead([s[0]], rest, [sep]);
      }
    }
  }

  /** Prefixing the first piece prefixes the join. */
  lemma JoinHead(a: string, xs: seq<string>, sep: string)
    requires |xs| > 0
    ensures Join([a + xs[0]] + xs[1..], sep) == a + Join(xs, sep)
  {
    var ys := [a + xs[0]] + xs[1..];
    assert ys[1..] == xs[1..];
  }

  /** The post parsed from some element of the response. */
  ghost predicate ParsedFrom(raws: seq<RawPost>, p: Post) {
    exists i :: 0 <= i < |raws| && ParsePost(raws[i]) == Some(p)
  }

  /** The posts `fetchPosts` returns for a response: the acceptable ones, in response order. */
  function ParsePosts(raws: seq<RawPost>): (r: seq<Post>)
    ensures |r| <= |raws|
    ensures forall i :: 0 <= i < |r| ==> r[i].id != "" && |r[i].tags| >= MinTags
    ensures forall p :: p in r <==> ParsedFrom(raws, p)
    ensures exists idx :: PicksFrom(raws, ParsePost, idx, r)
  {
    var r := FilterMap(raws, ParsePost);
    assert exists idx :: PicksFrom(raws, ParsePost, idx, r) by {
      var idx := FilterMapPicks(raws, ParsePost);
      assert PicksFrom(raws, ParsePost, idx, r);
    }
    forall i | 0 <= i < |r|
      ensures r[i].id != "" && |r[i].tags| >= MinTags
    {
      assert r[i] in r;
      var j :| 0 <= j < |raws| && ParsePost(raws[j]) == Some(r[i]);
    }
    r
  }

  /**
   * Parsing a response in two parts and joining the results is parsing it whole: the kept
   * posts come in response order, each where its element stood.
   */
  lemma ParsePostsAppend(a: seq<RawPost>, b: seq<RawPost>)
    ensures ParsePosts(a + b) == ParsePosts(a) + ParsePosts(b)
  {
    FilterMapAppend(a, b, ParsePost);
  }

  /** A response whose posts are all acceptable loses none; one with none acceptable yields nothing. */
  lemma ParsePostsExtremes(raws: seq<RawPost>)
    ensures (forall i :: 0 <= i < |raws| ==> ParsePost(raws[i]).Some?) ==> |ParsePosts(raws)| == |raws|
    ensures (forall i :: 0 <= i < |raws| ==> ParsePost(raws[i]).None?) ==> ParsePosts(raws) == []
  {
    FilterMapExtremes(raws, ParsePost);
  }

  /** `fetchPosts(page)`: ask the server with the current ban list's filter and keep the acceptable posts. */
  function FetchPosts(fetch: Fetcher, banList: seq<string>, page: nat): (r: seq<Post>)
    ensures |r| <= |fetch(TagFilter(banList), page)|
    ensures forall i :: 0 <= i < |r| ==> r[i].id != "" && |r[i].tags| >= MinTags
    ensures forall p :: p in r <==> ParsedFrom(fetch(TagFilter(banList), page), p)
    ensures exists idx :: PicksFrom(fetch(TagFilter(banList), page), ParsePost, idx, r)
  {
    ParsePosts(fetch(TagFilter(banList), page))
  }

  /** One pass of the `getNextPost` loop: the post it returns, `null` (no more posts), or another pass. */
  datatype Step = Found(post: Post) | Exhausted | Skipped

  /** The loop fetches a new page when the cursor is at `LIMIT` or no posts are loaded. */
  predicate NeedsRefill(f: Feed) {
    f.currentIndex >= Limit || |f.posts| == 0
  }

  /** The cursor is on a loaded post that was not viewed before and has enough tags. */
  predicate Acceptable(g: Feed) {
    g.currentIndex < |g.posts| && g.posts[g.currentIndex].id !in g.viewed && |g.posts[g.currentIndex].tags| >= MinTags
  }

  /** Reads the post under the cursor, advances the cursor, and hands the post out if it is new and well tagged. */
  function Take(g: Feed): (res: (Feed, Step))
    ensures res.0.currentIndex == g.currentIndex + 1
    ensures res.0.(currentIndex := g.currentIndex, viewed := g.viewed) == g
    ensures Acceptable(g) ==> res.1 == Found(g.posts[g.currentIndex])
    ensures res.1.Found? ==>
      && g.currentIndex < |g.posts| && res.1.post == g.posts[g.currentIndex]
      && res.1.post.id !in g.viewed && |res.1.post.tags| >= MinTags
      && res.0.viewed == g.viewed + [res.1.post.id]
    ensures !res.1.Found? ==> res.1.Skipped? && res.0.viewed == g.viewed
    ensures NoDups(g.viewed) ==> NoDups(res.0.viewed)
  {
    var i := g.currentIndex;
    var h := g.(currentIndex := i + 1);
    if Acceptable(g) then
      var v := g.viewed + [g.posts[i].id];
      assert NoDups(g.viewed) ==> NoDups(v) by {
        if NoDups(g.viewed) {
          forall a, b | 0 <= a < b < |v|
            ensures v[a] != v[b]
          {
            if b == |g.viewed| {
              assert v[a] == g.viewed[a];
            }
          }
        }
      }
      (h.(viewed := v), Found(g.posts[i]))
    else (h, Skipped)
  }

  /**
   * One pass of the `getNextPost` loop. A refill resets the cursor to 0 and fetches the
   * current page; an empty batch ends with `null` and leaves the page counter alone, a
   * non-empty one replaces the posts and advances the page counter by one. Then the post
   * under the cursor is handed out only if its id was not viewed before, and that id is
   * recorded as viewed.
   */
  function NextStep(f: Feed, fetch: Fetcher): (res: (Feed, Step))
    ensures res.0.banList == f.banList
    ensures res.0.currentIndex <= Limit
    ensures NeedsRefill(f) && |FetchPosts(fetch, f.banList, f.currentPage)| == 0 ==>
      res.1 == Exhausted && res.0 == f.(currentIndex := 0)
    ensures NeedsRefill(f) && |FetchPosts(fetch, f.banList, f.currentPage)| > 0 ==>
      && res.0.posts == FetchPosts(fetch, f.banList, f.currentPage)
      && res.0.currentPage == f.currentPage + 1
      && res.0.currentIndex == 1
    ensures !NeedsRefill(f) ==>
      && res.0.posts == f.posts
      && res.0.currentPage == f.currentPage
      && res.0.currentIndex == f.currentIndex + 1
    ensures res.1.Found? ==>
      && res.1.post.id !in f.viewed
      && res.0.viewed == f.viewed + [res.1.post.id]
      && |res.1.post.tags| >= MinTags
      && 1 <= res.0.currentIndex <= |res.0.posts|
      && res.1.post == res.0.posts[res.0.currentIndex - 1]
    ensures !NeedsRefill(f) && Acceptable(f) ==> res.1 == Found(f.posts[f.currentIndex])
    ensures !NeedsRefill(f) && !Acceptable(f) ==> res.1 == Skipped
    ensures res.1.Exhausted? <==> NeedsRefill(f) && |FetchPosts(fetch, f.banList, f.currentPage)| == 0
    ensures NeedsRefill(f) && |FetchPosts(fetch, f.banList, f.currentPage)| > 0 ==>
      var first := FetchPosts(fetch, f.banList, f.currentPage)[0];
      (res.1.Found? <==> first.id !in f.viewed) && (res.1.Found? ==> res.1.post == first)
    ensures !res.1.Found? ==> res.0.viewed == f.viewed
    ensures NoDups(f.viewed) ==> NoDups(res.0.viewed)
  {
    if NeedsRefill(f) then
      var fetched := FetchPosts(fetch, f.banList, f.currentPage);
      if |fetched| == 0 then (f.(currentIndex := 0), Exhausted)
      else Take(f.(posts := fetched, currentPage := f.currentPage + 1, currentIndex := 0))
    else Take(f)
  }

  /** What `getNextPost` resolves to: a post, `null`, or (in the model only) fuel ran out first. */
  datatype Outcome = Delivered(post: Post) | NoMorePosts | Undecided

  /**
   * `getNextPost`, running at most `fuel` passes of its loop (the source loop has no bound).
   * A delivered post was not viewed before and its id is now the last viewed entry;
   * otherwise the viewed list is unchanged. The ban list is never touched and the page
   * counter never goes back.
   */
  function GetNextPost(f: Feed, fetch: Fetcher, fuel: nat): (res: (Feed, Outcome))
    ensures res.0.banList == f.banList
    ensures res.0.currentPage >= f.currentPage
    ensures res.1.Delivered? ==>
      && res.1.post.id !in f.viewed
      && res.0.viewed == f.viewed + [res.1.post.id]
      && |res.1.post.tags| >= MinTags
    ensures !res.1.Delivered? ==> res.0.viewed == f.viewed
    ensures res.1.NoMorePosts? ==> res.0.currentIndex == 0 && |FetchPosts(fetch, f.banList, res.0.currentPage)| == 0
    ensures res.1.Undecided? ==> res.0.currentPage - f.currentPage <= fuel
    ensures fuel > 0 && !NeedsRefill(f) && Acceptable(f) ==> res.1 == Delivered(f.posts[f.currentIndex])
    ensures fuel > 0 && NeedsRefill(f) ==>
      var fetched := FetchPosts(fetch, f.banList, f.currentPage);
      && (|fetched| == 0 ==> res.1 == NoMorePosts)
      && (|fetched| > 0 && fetched[0].id !in f.viewed ==> res.1 == Delivered(fetched[0]))
    ensures NoDups(f.viewed) ==> NoDups(res.0.viewed)
    decreases fuel
  {
    if fuel == 0 then (f, Undecided)
    else
      var (g, step) := NextStep(f, fetch);
      match step
      case Found(p) => (g, Delivered(p))
      case Exhausted => (g, NoMorePosts)
      case Skipped => GetNextPost(g, fetch, fuel - 1)
  }
}
