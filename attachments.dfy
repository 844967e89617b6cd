/**
 * Rendering of one wall-post attachment into an HTML fragment
 * (`Attachment.render` and the `_*_rendering` helpers of vk_rss/vk_rss.py).
 * Each attachment kind that has a renderer is one constructor carrying its
 * payload; the seven kinds the post description only acknowledges are
 * `FlagOnly`, and every other kind is `Unknown`. Dispatch raises `KeyError`
 * on the last two.
 */
module Attachments {
  import opened Wrappers
  import opened Text

  /** The exceptions the feed builder can raise on well-formed API data. */
  datatype Error = KeyError(key: string) | IndexError

  /** Payload dictionaries. A `sizes` map holds the `photo_<width>` URL keys the API sent. */
  datatype PhotoData = PhotoData(sizes: map<string, string>, text: string)
  datatype VideoData = VideoData(sizes: map<string, string>, title: string)
  datatype AudioData = AudioData(url: string, artist: string, title: string)
  datatype DocData = DocData(url: string, title: string, docType: int, size: nat)
  datatype LinkData = LinkData(url: string, title: string, photo: Option<PhotoData>)
  datatype AlbumData = AlbumData(thumb: PhotoData, title: string)
  datatype Answer = Answer(text: string, rate: int)
  datatype PollData = PollData(question: string, answers: seq<Answer>, votes: int)

  /** The kinds the dispatch table of `render` has an entry for. */
  predicate IsRenderedKind(k: string)
  {
    k == "photo" || k == "video" || k == "audio" || k == "doc" || k == "link" || k == "album" || k == "poll"
  }

  /**
   * The kinds `description_post` acknowledges with a notice instead of
   * rendering them (the keys of its flag table).
   */
  datatype FlagKind = PhotosList | Comments | Note | Page | Market | MarketAlbum | Sticker

  /** The `type` string of a flag kind. */
  function FlagKindName(k: FlagKind): string
  {
    match k
    case PhotosList => "photos_list"
    case Comments => "comments"
    case Note => "note"
    case Page => "page"
    case Market => "market"
    case MarketAlbum => "market_album"
    case Sticker => "sticker"
  }

  predicate IsFlagKindName(k: string)
  {
    k == "photos_list" || k == "comments" || k == "note" || k == "page" ||
    k == "market" || k == "market_album" || k == "sticker"
  }

  /** Any other value of an attachment's `type` field. */
  type UnknownKind = k: string | !IsRenderedKind(k) && !IsFlagKindName(k) witness "graffiti"

  datatype Attachment =
    | Photo(photo: PhotoData)
    | Video(video: VideoData)
    | Audio(audio: AudioData)
    | Doc(doc: DocData)
    | Link(link: LinkData)
    | Album(album: AlbumData)
    | Poll(poll: PollData)
    | FlagOnly(flag: FlagKind)
    | Unknown(kind: UnknownKind)

  /** The attachment's `type` field. */
  function Kind(a: Attachment): string
  {
    match a
    case Photo(_) => "photo"
    case Video(_) => "video"
    case Audio(_) => "audio"
    case Doc(_) => "doc"
    case Link(_) => "link"
    case Album(_) => "album"
    case Poll(_) => "poll"
    case FlagOnly(f) => FlagKindName(f)
    case Unknown(k) => k
  }

  // ---------------------------------------------------------------------
  // best-resolution URL

  /** Candidate keys, best resolution first. */
  const PhotoSizeKeys: seq<string> := ["photo_2560", "photo_1280", "photo_807", "photo_604", "photo_130", "photo_75"]
  const VideoSizeKeys: seq<string> := ["photo_800", "photo_640", "photo_320", "photo_130"]

  /** `d.get(key)` is truthy: the key is there with a non-empty URL. */
  predicate Present(sizes: map<string, string>, key: string)
  {
    key in sizes && sizes[key] != ""
  }

  function Lookup(sizes: map<string, string>, key: string): Option<string>
  {
    if key in sizes then Some(sizes[key]) else None
  }

  /** The position of the first present key of `keys`, or `|keys|` when none is. */
  function FirstPresentIndex(sizes: map<string, string>, keys: seq<string>): (k: nat)
    ensures k <= |keys|
    ensures forall j :: 0 <= j < k ==> !Present(sizes, keys[j])
    ensures k < |keys| ==> Present(sizes, keys[k])
  {
    if keys == [] || Present(sizes, keys[0]) then 0
    else 1 + FirstPresentIndex(sizes, keys[1..])
  }

  /** The URL under the first present key of `keys`. */
  function FirstPresent(sizes: map<string, string>, keys: seq<string>): Option<string>
  {
    var k := FirstPresentIndex(sizes, keys);
    if k < |keys| then Some(sizes[keys[k]]) else None
  }

  /**
   * What `format` prints for the chain `d.get(k1) or d.get(k2) or ...`: the
   * first present URL; when none is present, the value of the last `get`,
   * which is `None` (printed "None") or an empty string.
   */
  function UrlChoice(sizes: map<string, string>, keys: seq<string>): string
    requires keys != []
  {
    match FirstPresent(sizes, keys)
    case Some(url) => url
    case None => if keys[|keys| - 1] in sizes then "" else "None"
  }

  function PhotoUrl(p: PhotoData): string
  {
    UrlChoice(p.sizes, PhotoSizeKeys)
  }

  function VideoUrl(v: VideoData): string
  {
    UrlChoice(v.sizes, VideoSizeKeys)
  }

  /** The URL under the first present key is chosen, whatever the lower keys hold. */
  lemma {:induction false} FirstPresentAt(sizes: map<string, string>, other: map<string, string>, keys: seq<string>, i: int)
    requires 0 <= i < |keys| && Present(sizes, keys[i])
    requires forall j :: 0 <= j < i ==> !Present(sizes, keys[j])
    requires forall j :: 0 <= j <= i ==> Lookup(other, keys[j]) == Lookup(sizes, keys[j])
    ensures FirstPresent(other, keys) == Some(sizes[keys[i]])
  {
    assert Lookup(other, keys[0]) == Lookup(sizes, keys[0]);
    if i > 0 {
      FirstPresentAt(sizes, other, keys[1..], i - 1);
    }
  }

  /**
   * A photo is shown by the URL of its best present resolution, captioned
   * with the photo's text.
   */
  lemma PhotoUrlIsBestPresent(p: PhotoData, other: map<string, string>, i: int)
    requires 0 <= i < |PhotoSizeKeys| && Present(p.sizes, PhotoSizeKeys[i])
    requires forall j :: 0 <= j < i ==> !Present(p.sizes, PhotoSizeKeys[j])
    requires forall j :: 0 <= j <= i ==> Lookup(other, PhotoSizeKeys[j]) == Lookup(p.sizes, PhotoSizeKeys[j])
    ensures PhotoUrl(p) == p.sizes[PhotoSizeKeys[i]]
    ensures PhotoUrl(p.(sizes := other)) == PhotoUrl(p)
    ensures Render(Photo(p)) == Ok(ImageTag(p.sizes[PhotoSizeKeys[i]], p.text))
  {
    FirstPresentAt(p.sizes, p.sizes, PhotoSizeKeys, i);
    FirstPresentAt(p.sizes, other, PhotoSizeKeys, i);
  }

  /**
   * A video is shown by the thumbnail URL of its best present resolution,
   * captioned with its title and `[Video]`.
   */
  lemma VideoUrlIsBestPresent(v: VideoData, other: map<string, string>, i: int)
    requires 0 <= i < |VideoSizeKeys| && Present(v.sizes, VideoSizeKeys[i])
    requires forall j :: 0 <= j < i ==> !Present(v.sizes, VideoSizeKeys[j])
    requires forall j :: 0 <= j <= i ==> Lookup(other, VideoSizeKeys[j]) == Lookup(v.sizes, VideoSizeKeys[j])
    ensures VideoUrl(v) == v.sizes[VideoSizeKeys[i]]
    ensures VideoUrl(v.(sizes := other)) == VideoUrl(v)
    ensures Render(Video(v)) == Ok(ImageTag(v.sizes[VideoSizeKeys[i]], v.title + " [Video]"))
  {
    FirstPresentAt(v.sizes, v.sizes, VideoSizeKeys, i);
    FirstPresentAt(v.sizes, other, VideoSizeKeys, i);
  }

  // ---------------------------------------------------------------------
  // fragments

  /** The `<img>` element of an image fragment. */
  function ImageElement(url: string): string
  {
    "<img src=\"" + url + "\">"
  }

  /** `_image_tag`: an image followed by its caption paragraph. */
  function ImageTag(url: string, description: string): string
  {
    ImageElement(url) + "<p>" + description + "</p>"
  }

  function RenderPhoto(p: PhotoData): string
  {
    ImageTag(PhotoUrl(p), p.text)
  }

  function RenderVideo(v: VideoData): string
  {
    ImageTag(VideoUrl(v), v.title + " [Video]")
  }

  function RenderAudio(a: AudioData): string
  {
    "<a href=\"" + a.url + "\">" + a.artist + " - " + a.title + " [Audio]</a>"
  }

  /** One MiB, the divisor of a document's size. */
  const MiB: nat := 1048576

  function Abs(x: int): nat { if x < 0 then -x else x }

  /**
   * `size / 1024**2` in hundredths, rounded as `{:.2f}` rounds: to nearest,
   * ties to even.
   */
  function HundredthsOfMiB(size: nat): (h: nat)
    ensures 2 * Abs(h * MiB - size * 100) <= MiB
    ensures 2 * Abs(h * MiB - size * 100) == MiB ==> h % 2 == 0
  {
    var q := size * 100 / MiB;
    var rem := size * 100 % MiB;
    if 2 * rem > MiB || (2 * rem == MiB && q % 2 == 1) then q + 1 else q
  }

  /** `'{:.2f}'.format(size / 1024**2)`. */
  function MegabytesText(size: nat): string
  {
    var h := HundredthsOfMiB(size);
    var f := h % 100;
    NatToString(h / 100) + "." + [DigitChar(f / 10), DigitChar(f % 10)]
  }

  lemma DigitsValueSnoc(a: string, c: char)
    requires IsDigits(a) && IsDigit(c)
    ensures IsDigits(a + [c])
    ensures DigitsValue(a + [c]) == DigitsValue(a) * 10 + DigitValue(c)
  {
    assert (a + [c])[..|a|] == a;
  }

  lemma DigitsValueAppend(a: string, b: string)
    requires IsDigits(a) && IsDigits(b) && |b| == 2
    ensures IsDigits(a + b)
    ensures DigitsValue(a + b) == DigitsValue(a) * 100 + DigitsValue(b)
  {
    var a1 := a + [b[0]];
    DigitsValueSnoc(a, b[0]);
    DigitsValueSnoc(a1, b[1]);
    assert a + b == a1 + [b[1]];
    TwoDigitsValue(b);
    var va := DigitsValue(a);
    assert DigitsValue(a + b) == (va * 10 + DigitValue(b[0])) * 10 + DigitValue(b[1]);
  }

  lemma TwoDigitsValue(b: string)
    requires IsDigits(b) && |b| == 2
    ensures DigitsValue(b) == DigitValue(b[0]) * 10 + DigitValue(b[1])
  {
    DigitsValueSnoc([], b[0]);
    DigitsValueSnoc([b[0]], b[1]);
    assert [] + [b[0]] == [b[0]];
    assert [b[0]] + [b[1]] == b;
  }

  /** The megabyte text is the rounded hundredths with a point before the last two digits. */
  lemma MegabytesTextReadsBack(size: nat)
    ensures var r := MegabytesText(size);
      |r| >= 4 && r[|r| - 3] == '.' &&
      IsDigits(r[..|r| - 3] + r[|r| - 2..]) &&
      DigitsValue(r[..|r| - 3] + r[|r| - 2..]) == HundredthsOfMiB(size)
  {
    var h := HundredthsOfMiB(size);
    var r := MegabytesText(size);
    var whole := NatToString(h / 100);
    var frac := [DigitChar(h % 100 / 10), DigitChar(h % 100 % 10)];
    assert r == whole + "." + frac;
    assert r[..|r| - 3] == whole;
    assert r[|r| - 2..] == frac;
    NatToStringRoundTrip(h / 100);
    DigitsValueAppend(whole, frac);
    FracValue(h % 100);
  }

  lemma FracValue(f: nat)
    requires f < 100
    ensures DigitsValue([DigitChar(f / 10), DigitChar(f % 10)]) == f
  {
    var frac := [DigitChar(f / 10), DigitChar(f % 10)];
    TwoDigitsValue(frac);
    assert DigitValue(frac[0]) == f / 10;
    assert DigitValue(frac[1]) == f % 10;
  }

  /** Two MiB is shown as "2.00". */
  lemma TwoMiBText()
    ensures MegabytesText(2097152) == "2.00"
  {
    assert HundredthsOfMiB(2097152) == 200;
    assert NatToString(2) == "2";
  }

  /** An exact tie (0.125 MiB) goes to the even hundredth, as `{:.2f}` does. */
  lemma EighthMiBText()
    ensures MegabytesText(131072) == "0.12"
  {
    assert HundredthsOfMiB(131072) == 12;
    assert NatToString(0) == "0";
  }

  /** A doc of type 3 (a gif) is an image; any other doc a link with its size. */
  function RenderDoc(d: DocData): string
  {
    if d.docType == 3 then ImageTag(d.url, d.title)
    else "<a href=\"" + d.url + "\">" + d.title + " - " + MegabytesText(d.size) + "MB [Doc]</a>"
  }

  /** An audio is a link to its URL labelled with artist, title and `[Audio]`. */
  lemma AudioShape(a: AudioData)
    ensures Render(Audio(a)) == Ok("<a href=\"" + a.url + "\">" + a.artist + " - " + a.title + " [Audio]</a>")
  {
  }

  /** A gif doc is its image captioned with its title; any other doc a link with its size in MiB. */
  lemma DocShape(d: DocData)
    ensures d.docType == 3 ==> Render(Doc(d)) == Ok(ImageElement(d.url) + "<p>" + d.title + "</p>")
    ensures d.docType != 3 ==>
      Render(Doc(d)) == Ok("<a href=\"" + d.url + "\">" + d.title + " - " + MegabytesText(d.size) + "MB [Doc]</a>")
  {
  }

  /** The image part of a rendered photo: `render(photo).split('<p>')[0]`. */
  function PhotoImagePart(p: PhotoData): string
  {
    BeforeFirst(RenderPhoto(p), "<p>")
  }

  function RenderLink(l: LinkData): string
  {
    var preview := match l.photo
      case None => ""
      case Some(p) => PhotoImagePart(p);
    "<a href=\"" + l.url + "\">" + preview + "<p>" + l.title + " [Link]</p></a>"
  }

  function RenderAlbum(a: AlbumData): string
  {
    PhotoImagePart(a.thumb) + "<p>" + a.title + " [Album]</p>"
  }

  /** An image element holds no `<p>` when its URL holds none. */
  lemma ImageElementHasNoParagraph(url: string)
    requires !Contains(url, "<p>")
    ensures forall i :: 0 <= i ==> !OccursAt(ImageElement(url), "<p>", i)
  {
    var head := "<img src=\"";
    var img := ImageElement(url);
    var q := |head| + |url|;
    assert img[..|head|] == head;
    assert img[|head|..q] == url;
    assert img[q] == '"' && img[q + 1] == '>';
    forall i | 0 <= i && i + 3 <= |img|
      ensures !OccursAt(img, "<p>", i)
    {
      var w := img[i..i + 3];
      if i == 0 {
        assert w[1] == head[1] == 'i';
      } else if i < |head| {
        assert w[0] == head[i] && head[i] != '<';
      } else if i + 3 <= q {
        assert w == url[i - |head|..i - |head| + 3];
        assert !OccursAt(url, "<p>", i - |head|);
      } else if i == q - 2 {
        assert w[2] == '"';
      } else {
        assert w[1] == '"';
      }
    }
  }

  /** Cutting an image fragment at its first `<p>` leaves exactly the image. */
  lemma ImageTagImagePart(url: string, description: string)
    requires !Contains(url, "<p>")
    ensures BeforeFirst(ImageTag(url, description), "<p>") == ImageElement(url)
  {
    var img := ImageElement(url);
    var s := ImageTag(url, description);
    assert s[..|img|] == img;
    assert s[|img|..|img| + 3] == "<p>";
    assert img[|img| - 2] == '"' && img[|img| - 1] == '>';
    ImageElementHasNoParagraph(url);
    forall i | 0 <= i < |img|
      ensures !OccursAt(s, "<p>", i)
    {
      if i + 3 <= |img| {
        assert s[i..i + 3] == img[i..i + 3];
        assert !OccursAt(img, "<p>", i);
      } else {
        assert s[i] == img[i] && img[i] != '<';
      }
    }
    BeforeFirstAt(s, "<p>", |img|);
  }

  /** An album shows its thumbnail image and replaces the caption by its own title. */
  lemma AlbumShowsThumbImage(a: AlbumData)
    requires !Contains(PhotoUrl(a.thumb), "<p>")
    ensures RenderAlbum(a) == ImageElement(PhotoUrl(a.thumb)) + "<p>" + a.title + " [Album]</p>"
  {
    ImageTagImagePart(PhotoUrl(a.thumb), a.thumb.text);
  }

  /** A link embeds its preview image, if it has one, before its title. */
  lemma LinkShowsPreviewImage(l: LinkData)
    requires l.photo.Some? ==> !Contains(PhotoUrl(l.photo.value), "<p>")
    ensures l.photo.None? ==> RenderLink(l) == "<a href=\"" + l.url + "\">" + "" + "<p>" + l.title + " [Link]</p></a>"
    ensures l.photo.Some? ==>
      RenderLink(l) == "<a href=\"" + l.url + "\">" + ImageElement(PhotoUrl(l.photo.value)) + "<p>" + l.title + " [Link]</p></a>"
  {
    if l.photo.Some? {
      ImageTagImagePart(PhotoUrl(l.photo.value), l.photo.value.text);
    }
  }

  // ---------------------------------------------------------------------
  // polls

  /** `'-' * 30`. */
  const Dashes: string := "------------------------------"

  /** The line of one answer: its text and its rate. */
  function AnswerLine(a: Answer): string
  {
    a.text + " -- " + IntToString(a.rate)
  }

  function VotesLine(votes: int): string
  {
    "Number of votes: " + IntToString(votes)
  }

  /** The lines `_poll_rendering` collects before joining them, in the order it appends them. */
  function PollLines(p: PollData): seq<string>
  {
    ["Pole: " + p.question] + [Dashes] + Map(AnswerLine, p.answers) + [Dashes] + [VotesLine(p.votes)]
  }

  function PollText(p: PollData): string
  {
    Join("<br>", PollLines(p))
  }

  /**
   * A poll has a header, a divider, the answer lines in answer order, a
   * divider and the vote count.
   */
  lemma PollLinesShape(p: PollData)
    ensures |PollLines(p)| == |p.answers| + 4
    ensures PollLines(p)[0] == "Pole: " + p.question && PollLines(p)[1] == Dashes
    ensures PollLines(p)[2..|p.answers| + 2] == Map(AnswerLine, p.answers)
    ensures PollLines(p)[|p.answers| + 2] == Dashes
    ensures PollLines(p)[|p.answers| + 3] == VotesLine(p.votes)
  {
    var front := ["Pole: " + p.question] + [Dashes];
    FramedParts(front, Map(AnswerLine, p.answers), Dashes, VotesLine(p.votes));
    assert front[0] == "Pole: " + p.question && front[1] == Dashes;
  }

  /** `_poll_rendering`: the lines are collected one by one and joined with `<br>`. */
  method RenderPoll(p: PollData) returns (r: string)
    ensures r == PollText(p)
  {
    var lines := ["Pole: " + p.question];
    lines := lines + [Dashes];
    ghost var head := lines;
    var i := 0;
    while i < |p.answers|
      invariant 0 <= i <= |p.answers|
      invariant lines == head + Map(AnswerLine, p.answers[..i])
    {
      MapSnoc(AnswerLine, p.answers, i);
      AppendOneAssoc(head, Map(AnswerLine, p.answers[..i]), AnswerLine(p.answers[i]));
      lines := lines + [AnswerLine(p.answers[i])];
      i := i + 1;
    }
    assert p.answers[..i] == p.answers;
    lines := lines + [Dashes];
    lines := lines + [VotesLine(p.votes)];
    r := Join("<br>", lines);
  }

  // ---------------------------------------------------------------------
  // dispatch

  /**
   * `Attachment.render`: the payload's renderer for the seven kinds of its
   * table, `KeyError` carrying the type string for any other kind.
   */
  function Render(a: Attachment): (r: Result<string, Error>)
    ensures r.Ok? <==> !a.FlagOnly? && !a.Unknown?
    ensures r.Err? ==> r.error == KeyError(Kind(a))
  {
    match a
    case Photo(p) => Ok(RenderPhoto(p))
    case Video(v) => Ok(RenderVideo(v))
    case Audio(au) => Ok(RenderAudio(au))
    case Doc(d) => Ok(RenderDoc(d))
    case Link(l) => Ok(RenderLink(l))
    case Album(al) => Ok(RenderAlbum(al))
    case Poll(p) => Ok(PollText(p))
    case FlagOnly(f) => Err(KeyError(FlagKindName(f)))
    case Unknown(k) => Err(KeyError(k))
  }

  /** `render` succeeds exactly on the type strings its dispatch table lists. */
  lemma RenderDefinedOnTable(a: Attachment)
    ensures Render(a).Ok? <==> IsRenderedKind(Kind(a))
  {
    if a.FlagOnly? {
      assert Kind(a) == FlagKindName(a.flag);
    }
  }

  /** Dispatch as the program runs it, with the poll lines built by the loop. */
  method RenderAttachment(a: Attachment) returns (r: Result<string, Error>)
    ensures r == Render(a)
  {
    if a.Poll? {
      var text := RenderPoll(a.poll);
      r := Ok(text);
    } else {
      r := Render(a);
    }
  }
}
