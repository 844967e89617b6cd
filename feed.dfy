/**
 * `post_parsing` and the post-selection loop of `rss_feed_for_group` in
 * vk_rss/vk_rss.py: every post of a group's wall becomes at most one RSS item
 * record, in wall order; ads are dropped, and a repost is either dropped or
 * replaced by the post it copies.
 */
module Feed {
  import opened Wrappers
  import opened Text
  import opened Attachments
  import opened Posts

  /** The dictionary `post_parsing` fills, one field per RSS element. */
  datatype Item = Item(title: string, link: string, description: string, guid: string, pubDate: int)

  /** A title keeps at most this many characters of the post text. */
  const TitleLength: nat := 20

  const WallPrefix: string := "https://vk.com/wall"

  function Min(a: nat, b: nat): nat { if a < b then a else b }

  /** The item title: the first characters of the text and an ellipsis, or the group's name for an empty text. */
  function Title(text: string, groupName: string): (title: string)
    ensures text == [] ==> title == groupName
    ensures text != [] ==>
      |title| == Min(|text|, TitleLength) + 3 &&
      title[..|title| - 3] == text[..|title| - 3] &&
      title[|title| - 3..] == "..."
  {
    if text != [] then text[..Min(|text|, TitleLength)] + "..." else groupName
  }

  /** `'{}_{}'.format(from_id, id)`. */
  function Guid(p: Post): string
  {
    IntToString(p.fromId) + "_" + IntToString(p.id)
  }

  /** `post_parsing`: the item record of a post, or the exception its description raises. */
  function ParsePost(p: Post, groupName: string): Result<Item, Error>
  {
    match Description(p)
    case Err(e) => Err(e)
    case Ok(d) => Ok(Item(Title(p.text, groupName), WallPrefix + Guid(p), d, Guid(p), p.date))
  }

  /** `post_parsing` as the program runs it, with the description built by its loops. */
  method PostParsing(p: Post, groupName: string) returns (r: Result<Item, Error>)
    ensures r == ParsePost(p, groupName)
  {
    var title := if p.text != [] then p.text[..Min(|p.text|, TitleLength)] + "..." else groupName;
    var guid := IntToString(p.fromId) + "_" + IntToString(p.id);
    var link := WallPrefix + guid;
    var description := DescriptionPost(p);
    if description.Err? {
      r := Err(description.error);
      return;
    }
    r := Ok(Item(title, link, description.value, guid, p.date));
  }

  // ---------------------------------------------------------------------
  // guids identify posts

  /** Reads a guid back into the owner id and the post id. */
  function ParseGuid(guid: string): Option<(int, int)>
  {
    var k := IndexOf(guid, '_');
    if k == |guid| then None
    else
      match (ParseInt(guid[..k]), ParseInt(guid[k + 1..]))
      case (Some(owner), Some(id)) => Some((owner, id))
      case _ => None
  }

  lemma {:induction false} IndexOfAfter(a: string, b: string, c: char)
    requires c !in a
    ensures IndexOf(a + [c] + b, c) == |a|
  {
    var s := a + [c] + b;
    assert s[|a|] == c;
    assert forall j :: 0 <= j < |a| ==> s[j] == a[j];
  }

  /** A guid names its post's owner and id. */
  lemma GuidRoundTrip(p: Post)
    ensures ParseGuid(Guid(p)) == Some((p.fromId, p.id))
  {
    var owner, id := IntToString(p.fromId), IntToString(p.id);
    var g := owner + "_" + id;
    IndexOfAfter(owner, id, '_');
    assert g[..|owner|] == owner;
    assert g[|owner| + 1..] == id;
    IntToStringRoundTrip(p.fromId);
    IntToStringRoundTrip(p.id);
  }

  /** Posts with the same guid have the same owner and id. */
  lemma GuidInjective(p: Post, q: Post)
    requires Guid(p) == Guid(q)
    ensures p.fromId == q.fromId && p.id == q.id
  {
    GuidRoundTrip(p);
    GuidRoundTrip(q);
  }

  /** An item's link is the wall address of the post its guid names, and it carries the post's description. */
  lemma ItemOfPost(p: Post, groupName: string)
    requires ParsePost(p, groupName).Ok?
    ensures var item := ParsePost(p, groupName).value;
      item.link == WallPrefix + item.guid &&
      ParseGuid(item.guid) == Some((p.fromId, p.id)) &&
      Description(p) == Ok(item.description) &&
      item.title == Title(p.text, groupName) &&
      item.pubDate == p.date
  {
    GuidRoundTrip(p);
  }

  /** Parsing fails exactly when the description does. */
  lemma ParsePostErr(p: Post, groupName: string)
    ensures ParsePost(p, groupName).Err? <==> Description(p).Err?
    ensures ParsePost(p, groupName).Err? ==> ParsePost(p, groupName).error == Description(p).error
  {
  }

  // ---------------------------------------------------------------------
  // selection

  function Single(r: Result<Item, Error>): Result<seq<Item>, Error>
  {
    match r
    case Err(e) => Err(e)
    case Ok(item) => Ok([item])
  }

  /** What one post adds to the feed: nothing, one item, or the exception raised on the way. */
  function PostItems(p: Post, groupName: string, reposts: bool): Result<seq<Item>, Error>
  {
    if p.markedAsAds then Ok([])
    else if p.copyHistory.None? then Single(ParsePost(p, groupName))
    else if !reposts then Ok([])
    else if p.copyHistory.value == [] then Err(IndexError)
    else Single(ParsePost(p.copyHistory.value[0], groupName))
  }

  /** `PostItems` for one group and one `reposts` setting. */
  function ItemsFor(groupName: string, reposts: bool): Post -> Result<seq<Item>, Error>
  {
    p => PostItems(p, groupName, reposts)
  }

  /** The items of the selection loop over `posts`; the first exception aborts the whole feed. */
  function FeedItems(posts: seq<Post>, groupName: string, reposts: bool): Result<seq<Item>, Error>
  {
    Collect(ItemsFor(groupName, reposts), posts)
  }

  /**
   * The selection loop of `rss_feed_for_group`: skips ads, parses an
   * original post as it is, skips a repost when reposts are off and
   * otherwise parses the post it copies, and collects the items in order.
   */
  method SelectItems(posts: seq<Post>, groupName: string, reposts: bool) returns (r: Result<seq<Item>, Error>)
    ensures r == FeedItems(posts, groupName, reposts)
  {
    ghost var f := ItemsFor(groupName, reposts);
    var items: seq<Item> := [];
    for i := 0 to |posts|
      invariant Collect(f, posts[..i]) == Ok(items)
    {
      var post := posts[i];
      CollectStep(f, posts, i, items);
      assert f(post) == PostItems(post, groupName, reposts);
      if post.markedAsAds {
        assert items + [] == items;
        continue;
      }
      var data: Result<Item, Error>;
      if post.copyHistory.None? {
        data := PostParsing(post, groupName);
      } else if reposts {
        if post.copyHistory.value == [] {
          CollectErrSticks(f, posts, i + 1);
          r := Err(IndexError);
          return;
        }
        data := PostParsing(post.copyHistory.value[0], groupName);
      } else {
        assert items + [] == items;
        continue;
      }
      if data.Err? {
        CollectErrSticks(f, posts, i + 1);
        r := Err(data.error);
        return;
      }
      items := items + [data.value];
    }
    assert posts[..|posts|] == posts;
    r := Ok(items);
  }

  // ---------------------------------------------------------------------
  // collecting results in order, stopping at the first error

  /** `f` applied to each element in order and the results concatenated; the first error ends it. */
  function Collect<X, Y, E>(f: X -> Result<seq<Y>, E>, xs: seq<X>): Result<seq<Y>, E>
  {
    if xs == [] then Ok([])
    else
      match Collect(f, xs[..|xs| - 1])
      case Err(e) => Err(e)
      case Ok(ys) =>
        match f(xs[|xs| - 1])
        case Err(e) => Err(e)
        case Ok(more) => Ok(ys + more)
  }

  lemma CollectStep<X, Y, E>(f: X -> Result<seq<Y>, E>, xs: seq<X>, i: nat, ys: seq<Y>)
    requires i < |xs| && Collect(f, xs[..i]) == Ok(ys)
    ensures Collect(f, xs[..i + 1]) ==
      match f(xs[i])
      case Err(e) => Err(e)
      case Ok(more) => Ok(ys + more)
  {
    assert xs[..i + 1][..i] == xs[..i];
  }

  /** Once an error is met, later elements change nothing. */
  lemma {:induction false} CollectErrSticks<X, Y, E>(f: X -> Result<seq<Y>, E>, xs: seq<X>, n: nat)
    requires n <= |xs| && Collect(f, xs[..n]).Err?
    ensures Collect(f, xs) == Collect(f, xs[..n])
    decreases |xs| - n
  {
    if n < |xs| {
      assert xs[..n + 1][..n] == xs[..n];
      CollectErrSticks(f, xs, n + 1);
    } else {
      assert xs[..n] == xs;
    }
  }

  /** Collecting over two runs is collecting over the first, then over the second. */
  lemma {:induction false} CollectAppend<X, Y, E>(f: X -> Result<seq<Y>, E>, a: seq<X>, b: seq<X>)
    ensures Collect(f, a + b) ==
      match Collect(f, a)
      case Err(e) => Err(e)
      case Ok(x) =>
        match Collect(f, b)
        case Err(e) => Err(e)
        case Ok(y) => Ok(x + y)
  {
    if b == [] {
      assert a + b == a;
      if Collect(f, a).Ok? {
        assert Collect(f, a).value + [] == Collect(f, a).value;
      }
    } else {
      var n := |b| - 1;
      CollectAppend(f, a, b[..n]);
      assert (a + b)[..|a + b| - 1] == a + b[..n];
      assert (a + b)[|a + b| - 1] == b[n];
      if Collect(f, a).Ok? && Collect(f, b[..n]).Ok? && f(b[n]).Ok? {
        var x, y, z := Collect(f, a).value, Collect(f, b[..n]).value, f(b[n]).value;
        assert x + y + z == x + (y + z);
      }
    }
  }

  /** When each element yields at most one result, there are no more results than elements. */
  lemma {:induction false} CollectLength<X, Y, E>(f: X -> Result<seq<Y>, E>, xs: seq<X>)
    requires forall i :: 0 <= i < |xs| && f(xs[i]).Ok? ==> |f(xs[i]).value| <= 1
    ensures Collect(f, xs).Ok? ==> |Collect(f, xs).value| <= |xs|
  {
    if xs != [] {
      var n := |xs| - 1;
      forall i | 0 <= i < n && f(xs[..n][i]).Ok?
        ensures |f(xs[..n][i]).value| <= 1
      {
        assert xs[..n][i] == xs[i];
      }
      CollectLength(f, xs[..n]);
    }
  }

  /** The elements `keep` accepts, in order. */
  function Keep<X>(xs: seq<X>, keep: X -> bool): (kept: seq<X>)
    ensures |kept| <= |xs|
  {
    if xs == [] then []
    else Keep(xs[..|xs| - 1], keep) + (if keep(xs[|xs| - 1]) then [xs[|xs| - 1]] else [])
  }

  /** Dropping elements that yield nothing leaves the collected results as they are. */
  lemma {:induction false} CollectKeep<X, Y, E>(f: X -> Result<seq<Y>, E>, xs: seq<X>, keep: X -> bool)
    requires forall i :: 0 <= i < |xs| && !keep(xs[i]) ==> f(xs[i]) == Ok([])
    ensures Collect(f, Keep(xs, keep)) == Collect(f, xs)
  {
    if xs != [] {
      var n := |xs| - 1;
      var init, last := xs[..n], xs[n];
      forall i | 0 <= i < n && !keep(init[i])
        ensures f(init[i]) == Ok([])
      {
        assert init[i] == xs[i];
      }
      CollectKeep(f, init, keep);
      var kept := Keep(init, keep);
      if keep(last) {
        assert Keep(xs, keep) == kept + [last];
        assert (kept + [last])[..|kept|] == kept;
      } else {
        assert Keep(xs, keep) == kept + [];
        assert kept + [] == kept;
        if Collect(f, init).Ok? {
          var x := Collect(f, init).value;
          assert x + [] == x;
        }
      }
    }
  }

  // ---------------------------------------------------------------------
  // properties of the selection

  /** Each post contributes at most one item. */
  lemma AtMostOnePerPost(p: Post, groupName: string, reposts: bool)
    ensures PostItems(p, groupName, reposts).Ok? ==> |PostItems(p, groupName, reposts).value| <= 1
  {
  }

  /** The feed of two runs of posts is the feed of the first followed by the feed of the second. */
  lemma FeedItemsAppend(a: seq<Post>, b: seq<Post>, groupName: string, reposts: bool)
    ensures FeedItems(a + b, groupName, reposts) ==
      match FeedItems(a, groupName, reposts)
      case Err(e) => Err(e)
      case Ok(x) =>
        match FeedItems(b, groupName, reposts)
        case Err(e) => Err(e)
        case Ok(y) => Ok(x + y)
  {
    CollectAppend(ItemsFor(groupName, reposts), a, b);
  }

  /** The feed never has more items than the wall has posts. */
  lemma FeedNoLongerThanWall(posts: seq<Post>, groupName: string, reposts: bool)
    ensures FeedItems(posts, groupName, reposts).Ok? ==> |FeedItems(posts, groupName, reposts).value| <= |posts|
  {
    var f := ItemsFor(groupName, reposts);
    forall i | 0 <= i < |posts| && f(posts[i]).Ok?
      ensures |f(posts[i]).value| <= 1
    {
      AtMostOnePerPost(posts[i], groupName, reposts);
    }
    CollectLength(f, posts);
  }

  function NotAd(p: Post): bool { !p.markedAsAds }

  /** An original post that is not an ad. */
  function OriginalNotAd(p: Post): bool { !p.markedAsAds && p.copyHistory.None? }

  /** Ads never reach the feed: the feed of a wall is the feed of its posts that are not ads. */
  lemma AdsDropped(posts: seq<Post>, groupName: string, reposts: bool)
    ensures FeedItems(posts, groupName, reposts) == FeedItems(Keep(posts, NotAd), groupName, reposts)
  {
    var f := ItemsFor(groupName, reposts);
    forall i | 0 <= i < |posts| && !NotAd(posts[i])
      ensures f(posts[i]) == Ok([])
    {
    }
    CollectKeep(f, posts, NotAd);
  }

  /** With reposts off, the feed is the feed of the original posts that are not ads. */
  lemma RepostsOff(posts: seq<Post>, groupName: string)
    ensures FeedItems(posts, groupName, false) == FeedItems(Keep(posts, OriginalNotAd), groupName, false)
  {
    var f := ItemsFor(groupName, false);
    forall i | 0 <= i < |posts| && !OriginalNotAd(posts[i])
      ensures f(posts[i]) == Ok([])
    {
    }
    CollectKeep(f, posts, OriginalNotAd);
  }

  /** An original post that is not an ad yields its own item. */
  lemma OriginalPostItem(p: Post, groupName: string, reposts: bool)
    requires !p.markedAsAds && p.copyHistory.None?
    ensures PostItems(p, groupName, reposts) == Single(ParsePost(p, groupName))
  {
  }

  /**
   * With reposts on, a repost yields the item of the post it copies, named by
   * that post's guid and link, under the current group's name; an empty
   * copy history raises `IndexError`.
   */
  lemma RepostItem(p: Post, groupName: string)
    requires !p.markedAsAds && p.copyHistory.Some?
    ensures p.copyHistory.value == [] ==> PostItems(p, groupName, true) == Err(IndexError)
    ensures p.copyHistory.value != [] ==>
      var original := p.copyHistory.value[0];
      PostItems(p, groupName, true) == Single(ParsePost(original, groupName)) &&
      (ParsePost(original, groupName).Ok? ==>
        ParseGuid(ParsePost(original, groupName).value.guid) == Some((original.fromId, original.id)))
  {
    if p.copyHistory.value != [] {
      var original := p.copyHistory.value[0];
      if ParsePost(original, groupName).Ok? {
        ItemOfPost(original, groupName);
      }
    }
  }

  // ---------------------------------------------------------------------
  // the `wall.get` query

  /** Whom `wall.get` is asked about: a short name, or a numeric owner id. */
  datatype Owner = Domain(domain: string) | OwnerId(id: int)

  /** The arguments of the `wall.get` call: the owner and how many posts. */
  datatype WallQuery = WallQuery(owner: Owner, count: nat)

  const PostsPerQuery: nat := 60

  /**
   * A group name `club<digits>` is a numeric group id, queried as the
   * negative owner id; any other name is queried as a short name.
   */
  function WallQueryFor(group: string): WallQuery
  {
    if |group| > 4 && group[..4] == "club" && IsDigits(group[4..])
    then WallQuery(OwnerId(-(DigitsValue(group[4..]) as int)), PostsPerQuery)
    else WallQuery(Domain(group), PostsPerQuery)
  }

  /** `club<n>` asks for owner `-n`. */
  lemma ClubNameIsOwnerId(n: nat)
    ensures WallQueryFor("club" + NatToString(n)) == WallQuery(OwnerId(-(n as int)), PostsPerQuery)
  {
    var g := "club" + NatToString(n);
    assert g[..4] == "club";
    assert g[4..] == NatToString(n);
    NatToStringRoundTrip(n);
  }

  /** A name that does not start with `club` is asked for as a short name. */
  lemma OtherNameIsDomain(group: string)
    requires |group| < 4 || group[..4] != "club"
    ensures WallQueryFor(group) == WallQuery(Domain(group), PostsPerQuery)
  {
  }

  /** `club` followed by something that is not a number is a short name too. */
  lemma ClubShortName(group: string)
    requires |group| >= 4 && group[..4] == "club" && (|group| == 4 || !IsDigits(group[4..]))
    ensures WallQueryFor(group) == WallQuery(Domain(group), PostsPerQuery)
  {
  }
}
