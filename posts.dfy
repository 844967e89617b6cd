/**
 * Wall posts and `description_post` of vk_rss/vk_rss.py: the HTML body of a
 * feed item, made of the post text, the rendered attachments and one notice
 * for each kind of content that is acknowledged but not rendered.
 */
module Posts {
  import opened Wrappers
  import opened Text
  import opened Attachments

  /** One element of the `items` list `wall.get` returns (the fields the feed uses). */
  datatype Post = Post(
    text: string,
    fromId: int,
    id: int,
    date: int,
    markedAsAds: bool,
    attachments: Option<seq<Attachment>>,
    comments: Option<int>,
    copyHistory: Option<seq<Post>>)

  /** The keys of the flag table, in its iteration order. */
  const FlagOrder: seq<FlagKind> := [PhotosList, Comments, Note, Page, Market, MarketAlbum, Sticker]

  /** Every flag kind is a key of the table, once. */
  lemma FlagOrderComplete(k: FlagKind)
    ensures k in FlagOrder && multiset(FlagOrder)[k] == 1
  {
  }

  /** `post.get('attachments', [])`. */
  function AttachmentsOf(p: Post): seq<Attachment>
  {
    if p.attachments.Some? then p.attachments.value else []
  }

  /** `post.get('comments', {'count': 0})['count']`. */
  function CommentCount(p: Post): int
  {
    if p.comments.Some? then p.comments.value else 0
  }

  /** `not_rendered_element_tag`. */
  function NoticeTag(kind: string): string
  {
    "<strong>You can find " + kind + " in the post</strong>"
  }

  lemma NoticeTagInjective(a: string, b: string)
    requires NoticeTag(a) == NoticeTag(b)
    ensures a == b
  {
    var s := NoticeTag(a);
    var head := "<strong>You can find ";
    assert s == head + a + " in the post</strong>";
    assert s == head + b + " in the post</strong>";
    assert |a| == |b|;
    assert s[|head|..|head| + |a|] == a;
    assert s[|head|..|head| + |b|] == b;
  }

  /** The notice `description_post` appends for a flagged kind. */
  function Notice(k: FlagKind): string
  {
    NoticeTag(FlagKindName(k))
  }

  /** Distinct flag kinds have distinct notices. */
  lemma NoticeInjective(a: FlagKind, b: FlagKind)
    requires Notice(a) == Notice(b)
    ensures a == b
  {
    NoticeTagInjective(FlagKindName(a), FlagKindName(b));
    assert FlagKindName(a)[0] == FlagKindName(b)[0];
    assert |FlagKindName(a)| == |FlagKindName(b)|;
    assert FlagKindName(a)[|FlagKindName(a)| - 1] == FlagKindName(b)[|FlagKindName(b)| - 1];
  }

  /** Some attachment in `atts` is of the flag-only kind `k`. */
  predicate HasKind(atts: seq<Attachment>, k: FlagKind)
  {
    atts != [] && (HasKind(atts[..|atts| - 1], k) || atts[|atts| - 1] == FlagOnly(k))
  }

  lemma HasKindSnoc(atts: seq<Attachment>, a: Attachment, k: FlagKind)
    ensures HasKind(atts + [a], k) <==> HasKind(atts, k) || a == FlagOnly(k)
  {
    assert (atts + [a])[..|atts|] == atts;
  }

  /** `HasKind` is membership of an attachment of that kind. */
  lemma {:induction false} HasKindIff(atts: seq<Attachment>, k: FlagKind)
    ensures HasKind(atts, k) <==> exists i :: 0 <= i < |atts| && atts[i] == FlagOnly(k)
  {
    if atts != [] {
      var n := |atts| - 1;
      HasKindIff(atts[..n], k);
      if HasKind(atts[..n], k) {
        var i :| 0 <= i < n && atts[..n][i] == FlagOnly(k);
        assert atts[i] == atts[..n][i];
      }
      if exists i :: 0 <= i < |atts| && atts[i] == FlagOnly(k) {
        var i :| 0 <= i < |atts| && atts[i] == FlagOnly(k);
        if i < n {
          assert atts[..n][i] == atts[i];
        }
      }
    }
  }

  /** The flag `description_post` holds for `k` once the attachments and the comment count are seen. */
  predicate Flagged(p: Post, k: FlagKind)
  {
    HasKind(AttachmentsOf(p), k) || (k == Comments && CommentCount(p) != 0)
  }

  // ---------------------------------------------------------------------
  // specification

  /**
   * The rendered fragments of the attachments that are not flag-only, in
   * attachment order; the first failing `render` raises.
   */
  function Fragments(atts: seq<Attachment>): Result<seq<string>, Error>
  {
    if atts == [] then Ok([])
    else
      match Fragments(atts[..|atts| - 1])
      case Err(e) => Err(e)
      case Ok(fs) =>
        var a := atts[|atts| - 1];
        if a.FlagOnly? then Ok(fs)
        else
          match Render(a)
          case Err(e) => Err(e)
          case Ok(f) => Ok(fs + [f])
  }

  /** The flagged kinds among `kinds`, in the order of `kinds`. */
  function NoticedKinds(p: Post, kinds: seq<FlagKind>): seq<FlagKind>
  {
    if kinds == [] then []
    else
      var k := kinds[|kinds| - 1];
      NoticedKinds(p, kinds[..|kinds| - 1]) + (if Flagged(p, k) then [k] else [])
  }

  /** The notices of a post, in the order of the flag table. */
  function Notices(p: Post): seq<string>
  {
    Map(Notice, NoticedKinds(p, FlagOrder))
  }

  /** The post text with each line break written as `<br>`, plus a trailing `<br>`. */
  function PostText(text: string): string
  {
    Join("<br>", Split(text, '\n')) + "<br>"
  }

  /** What `description_post` returns, or the exception it raises. */
  function Description(p: Post): Result<string, Error>
  {
    match Fragments(AttachmentsOf(p))
    case Err(e) => Err(e)
    case Ok(fs) => Ok(PostText(p.text) + Join("<br>", fs + Notices(p)))
  }

  // ---------------------------------------------------------------------
  // the loops as the program runs them

  lemma {:induction false} FragmentsErrSticks(atts: seq<Attachment>, n: nat)
    requires n <= |atts| && Fragments(atts[..n]).Err?
    ensures Fragments(atts) == Fragments(atts[..n])
    decreases |atts| - n
  {
    if n < |atts| {
      assert atts[..n + 1][..n] == atts[..n];
      FragmentsErrSticks(atts, n + 1);
    } else {
      assert atts[..n] == atts;
    }
  }

  lemma FragmentsStep(atts: seq<Attachment>, i: nat, tags: seq<string>)
    requires i < |atts| && Fragments(atts[..i]) == Ok(tags)
    ensures Fragments(atts[..i + 1]) ==
      if atts[i].FlagOnly? then Ok(tags)
      else match Render(atts[i])
        case Err(e) => Err(e)
        case Ok(f) => Ok(tags + [f])
  {
    assert atts[..i + 1][..i] == atts[..i];
  }

  /** The flag table as `description_post` initialises it: every key unset. */
  const NoFlags: map<FlagKind, bool> := map[PhotosList := false, Comments := false, Note := false, Page := false,
    Market := false, MarketAlbum := false, Sticker := false]

  /** The flag table after the pass over `atts`. */
  function FlagTable(atts: seq<Attachment>): map<FlagKind, bool>
  {
    if atts == [] then NoFlags
    else
      var a := atts[|atts| - 1];
      var table := FlagTable(atts[..|atts| - 1]);
      if a.FlagOnly? then table[a.flag := true] else table
  }

  /** The flag table once the comment count is seen too. */
  function PostFlagTable(p: Post): map<FlagKind, bool>
  {
    var table := FlagTable(AttachmentsOf(p));
    if CommentCount(p) != 0 then table[Comments := true] else table
  }

  /** The keys among `kinds` whose flag is set, in the order of `kinds`. */
  function SetKeys(flags: map<FlagKind, bool>, kinds: seq<FlagKind>): seq<FlagKind>
  {
    if kinds == [] then []
    else
      var k := kinds[|kinds| - 1];
      SetKeys(flags, kinds[..|kinds| - 1]) + (if k in flags && flags[k] then [k] else [])
  }

  /** After the pass over `atts`, a kind's flag is set exactly when some attachment is of that kind. */
  lemma {:induction false} FlagTableMeaning(atts: seq<Attachment>, k: FlagKind)
    ensures k in FlagTable(atts) && FlagTable(atts)[k] == HasKind(atts, k)
  {
    if atts == [] {
      match k
      case PhotosList =>
      case Comments =>
      case Note =>
      case Page =>
      case Market =>
      case MarketAlbum =>
      case Sticker =>
    } else {
      FlagTableMeaning(atts[..|atts| - 1], k);
    }
  }

  /** The complete flag table holds exactly the `Flagged` kinds. */
  lemma PostFlagTableMeaning(p: Post, k: FlagKind)
    ensures k in PostFlagTable(p) && PostFlagTable(p)[k] == Flagged(p, k)
  {
    FlagTableMeaning(AttachmentsOf(p), k);
  }

  /** The pass over the table picks exactly the flagged kinds. */
  lemma {:induction false} SetKeysAreNoticed(p: Post, kinds: seq<FlagKind>)
    ensures SetKeys(PostFlagTable(p), kinds) == NoticedKinds(p, kinds)
  {
    if kinds != [] {
      SetKeysAreNoticed(p, kinds[..|kinds| - 1]);
      PostFlagTableMeaning(p, kinds[|kinds| - 1]);
    }
  }

  lemma FlagTableStep(atts: seq<Attachment>, i: nat)
    requires i < |atts|
    ensures FlagTable(atts[..i + 1]) ==
      if atts[i].FlagOnly? then FlagTable(atts[..i])[atts[i].flag := true] else FlagTable(atts[..i])
  {
    assert atts[..i + 1][..i] == atts[..i];
  }

  lemma SetKeysStep(flags: map<FlagKind, bool>, kinds: seq<FlagKind>, j: nat)
    requires j < |kinds|
    ensures SetKeys(flags, kinds[..j + 1]) ==
      SetKeys(flags, kinds[..j]) + if kinds[j] in flags && flags[kinds[j]] then [kinds[j]] else []
  {
    assert kinds[..j + 1][..j] == kinds[..j];
  }

  /**
   * The first loop of `description_post`: sets the flag of each flag-only
   * attachment and renders every other attachment, in order; the first
   * failing `render` raises.
   */
  method ScanAttachments(atts: seq<Attachment>) returns (r: Result<seq<string>, Error>, flags: map<FlagKind, bool>)
    ensures r == Fragments(atts)
    ensures r.Ok? ==> flags == FlagTable(atts)
  {
    var tags: seq<string> := [];
    flags := map[PhotosList := false, Comments := false, Note := false, Page := false,
      Market := false, MarketAlbum := false, Sticker := false];
    var i := 0;
    while i < |atts|
      invariant 0 <= i <= |atts|
      invariant Fragments(atts[..i]) == Ok(tags)
      invariant flags == FlagTable(atts[..i])
    {
      var a := atts[i];
      FragmentsStep(atts, i, tags);
      FlagTableStep(atts, i);
      if a.FlagOnly? {
        flags := flags[a.flag := true];
      } else {
        var fragment := RenderAttachment(a);
        if fragment.Err? {
          FragmentsErrSticks(atts, i + 1);
          r := Err(fragment.error);
          return;
        }
        tags := tags + [fragment.value];
      }
      i := i + 1;
    }
    assert atts[..i] == atts;
    r := Ok(tags);
  }

  /** The second loop of `description_post`: one notice per set flag, in the order of the table. */
  method AppendNotices(flags: map<FlagKind, bool>, tags: seq<string>) returns (out: seq<string>)
    requires forall k :: k in flags
    ensures out == tags + Map(Notice, SetKeys(flags, FlagOrder))
  {
    out := tags;
    var j := 0;
    ghost var noticed: seq<FlagKind> := [];
    while j < |FlagOrder|
      invariant 0 <= j <= |FlagOrder|
      invariant noticed == SetKeys(flags, FlagOrder[..j])
      invariant out == tags + Map(Notice, noticed)
    {
      var k := FlagOrder[j];
      SetKeysStep(flags, FlagOrder, j);
      if flags[k] {
        MapAppendOne(Notice, noticed, k);
        AppendOneAssoc(tags, Map(Notice, noticed), Notice(k));
        out := out + [Notice(k)];
        noticed := noticed + [k];
      } else {
        assert noticed + [] == noticed;
      }
      j := j + 1;
    }
    assert FlagOrder[..j] == FlagOrder;
  }

  /**
   * `description_post`: the pass over the attachments, the comment count
   * setting one more flag, the pass over the flag table, and the text joined
   * in front.
   */
  method DescriptionPost(p: Post) returns (r: Result<string, Error>)
    ensures r == Description(p)
  {
    var fragments, flags := ScanAttachments(AttachmentsOf(p));
    if fragments.Err? {
      r := Err(fragments.error);
      return;
    }
    if CommentCount(p) != 0 {
      flags := flags[Comments := true];
    }
    assert flags == PostFlagTable(p);
    forall k ensures k in flags {
      PostFlagTableMeaning(p, k);
    }
    var tags := AppendNotices(flags, fragments.value);
    SetKeysAreNoticed(p, FlagOrder);
    var postText := Join("<br>", Split(p.text, '\n')) + "<br>";
    r := Ok(postText + Join("<br>", tags));
  }

  // ---------------------------------------------------------------------
  // properties

  /** Each listed kind is noticed once per occurrence in `kinds` when flagged, and never otherwise. */
  lemma {:induction false} NoticedCount(p: Post, kinds: seq<FlagKind>, k: FlagKind)
    ensures multiset(NoticedKinds(p, kinds))[k] == if Flagged(p, k) then multiset(kinds)[k] else 0
  {
    if kinds != [] {
      var n := |kinds| - 1;
      NoticedCount(p, kinds[..n], k);
      assert kinds == kinds[..n] + [kinds[n]];
    }
  }

  /** A flagged kind is noticed exactly once, however often its attachments repeat; an unflagged one never. */
  lemma NoticeOncePerFlaggedKind(p: Post, k: FlagKind)
    ensures multiset(NoticedKinds(p, FlagOrder))[k] == if Flagged(p, k) then 1 else 0
  {
    NoticedCount(p, FlagOrder, k);
    FlagOrderComplete(k);
  }

  /** The notice for a kind is in the description exactly when the kind is flagged. */
  lemma NoticeShownIff(p: Post, k: FlagKind)
    ensures Notice(k) in Notices(p) <==> Flagged(p, k)
  {
    var noticed := NoticedKinds(p, FlagOrder);
    NoticeOncePerFlaggedKind(p, k);
    MapAt(Notice, noticed);
    if Notice(k) in Notices(p) {
      var i :| 0 <= i < |noticed| && Notices(p)[i] == Notice(k);
      NoticeInjective(noticed[i], k);
    }
    if Flagged(p, k) {
      var i :| 0 <= i < |noticed| && noticed[i] == k;
      assert Notices(p)[i] == Notice(k);
    }
  }

  /** The comments notice appears exactly when there are comments or a `comments` attachment. */
  lemma CommentsNoticeIff(p: Post)
    ensures Notice(Comments) in Notices(p) <==>
      CommentCount(p) != 0 || exists i :: 0 <= i < |AttachmentsOf(p)| && AttachmentsOf(p)[i] == FlagOnly(Comments)
  {
    NoticeShownIff(p, Comments);
    HasKindIff(AttachmentsOf(p), Comments);
  }

  lemma {:induction false} NoticedNone(p: Post, kinds: seq<FlagKind>)
    requires forall i :: 0 <= i < |kinds| ==> !Flagged(p, kinds[i])
    ensures NoticedKinds(p, kinds) == []
  {
    if kinds != [] {
      NoticedNone(p, kinds[..|kinds| - 1]);
    }
  }

  lemma {:induction false} NoticedSameFlags(p: Post, q: Post, kinds: seq<FlagKind>)
    requires forall k :: Flagged(p, k) <==> Flagged(q, k)
    ensures NoticedKinds(p, kinds) == NoticedKinds(q, kinds)
  {
    if kinds != [] {
      NoticedSameFlags(p, q, kinds[..|kinds| - 1]);
    }
  }

  /** A post without attachments or comments is described by its text alone. */
  lemma DescriptionOfPlainPost(p: Post)
    requires AttachmentsOf(p) == [] && CommentCount(p) == 0
    ensures Description(p) == Ok(Replace(p.text, '\n', "<br>") + "<br>")
  {
    NoticedNone(p, FlagOrder);
    assert Notices(p) == [];
    assert Fragments(AttachmentsOf(p)) == Ok([]);
    assert Join("<br>", [] + Notices(p)) == "";
    JoinSplitIsReplace(p.text, '\n', "<br>");
    assert Description(p) == Ok(PostText(p.text) + "");
    assert PostText(p.text) + "" == PostText(p.text);
  }

  /** Two lines of plain text, such as `Hello` and `World`, are joined by `<br>` and end with one. */
  lemma DescriptionOfTwoLines(p: Post, first: string, second: string)
    requires AttachmentsOf(p) == [] && CommentCount(p) == 0
    requires p.text == first + "\n" + second && '\n' !in first && '\n' !in second
    ensures Description(p) == Ok(first + "<br>" + second + "<br>")
  {
    DescriptionOfPlainPost(p);
    ReplaceOneBreak(first, second, '\n', "<br>");
  }

  /** One more flag-only attachment of a kind already present changes nothing. */
  lemma RepeatedFlagKind(p: Post, k: FlagKind)
    requires HasKind(AttachmentsOf(p), k)
    ensures Description(p.(attachments := Some(AttachmentsOf(p) + [FlagOnly(k)]))) == Description(p)
  {
    var atts := AttachmentsOf(p);
    var q := p.(attachments := Some(atts + [FlagOnly(k)]));
    assert (atts + [FlagOnly(k)])[..|atts|] == atts;
    assert Fragments(atts + [FlagOnly(k)]) == Fragments(atts);
    forall k' ensures Flagged(q, k') <==> Flagged(p, k') {
      HasKindSnoc(atts, FlagOnly(k), k');
    }
    NoticedSameFlags(q, p, FlagOrder);
  }

  /** The attachments `render` is called on: those that are not flag-only, in order. */
  function Renderable(atts: seq<Attachment>): seq<Attachment>
  {
    if atts == [] then []
    else
      var a := atts[|atts| - 1];
      Renderable(atts[..|atts| - 1]) + (if a.FlagOnly? then [] else [a])
  }

  /** The fragments exist exactly when no attachment is of an unknown kind. */
  lemma {:induction false} FragmentsOkIff(atts: seq<Attachment>)
    ensures Fragments(atts).Ok? <==> forall i :: 0 <= i < |atts| ==> !atts[i].Unknown?
  {
    if atts != [] {
      var n := |atts| - 1;
      var init := atts[..n];
      FragmentsOkIff(init);
      if Fragments(init).Err? {
        var i :| 0 <= i < n && init[i].Unknown?;
        assert atts[i] == init[i];
      } else {
        forall i | 0 <= i < n
          ensures !atts[i].Unknown?
        {
          assert atts[i] == init[i];
        }
      }
    }
  }

  /** The fragments are the renderings of the attachments that are not flag-only, in attachment order. */
  lemma {:induction false} FragmentsInOrder(atts: seq<Attachment>)
    requires Fragments(atts).Ok?
    ensures |Fragments(atts).value| == |Renderable(atts)|
    ensures forall j :: 0 <= j < |Renderable(atts)| ==> Render(Renderable(atts)[j]) == Ok(Fragments(atts).value[j])
  {
    if atts != [] {
      FragmentsInOrder(atts[..|atts| - 1]);
    }
  }
}
