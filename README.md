# vk_rss in Dafny

A model of the part of `vk_rss` that turns the wall posts of a VK group into
RSS item records, with proofs of what that pipeline promises:

- `Attachments` — `Attachment.render` and its renderers. It covers:
  - the best-resolution URL of photos and videos;
  - audio and doc links, with a gif doc shown as an image;
  - link previews and album thumbnails cut at the first `<p>`;
  - poll lines joined with `<br>`;
  - the dispatch table, which raises `KeyError` for any kind it does not list.
- `Posts` — `description_post`. It builds the HTML body of an item:
  - the post text with line breaks written as `<br>`;
  - the rendered attachments, in attachment order;
  - one `<strong>You can find … in the post</strong>` notice per flagged kind, in the fixed order of the flag table.

  The two loops run as methods (`ScanAttachments`, `AppendNotices`) and are proved equal to the function `Description`.
- `Feed` — `post_parsing` (title, link, guid, description, date of an item) and the per-post selection loop of `rss_feed_for_group`:
  - ads are dropped;
  - an original post is parsed as it is;
  - a repost is dropped or replaced by the post it copies.

  It also covers the `club<digits>` rewrite of the `wall.get` query.
- `Text` — the pieces of Python's `str` the program uses: `split`/`join` on one separator, `s.split(pat)[0]`, `str(int)` and its inverse.
- `Wrappers` — `Option` and `Result`.

Exceptions become `Result` values. The program does not catch them, so the first `KeyError` or `IndexError` raised while building a feed ends the whole feed. The model propagates it in the same way.

The model follows the code in three places a reader might not expect:

- a post is a repost whenever `copy_history` is present, even when it is an empty list, and when reposts are included an empty list then raises `IndexError` (vk_rss/vk_rss.py:321, 327);
- a repost's item takes its link and guid from the copied post, since `post_parsing` receives `copy_history[0]`;
- an attachment of a kind nobody renders aborts the feed rather than skipping the post.

## Model

| member | source | states |
|---|---|---|
| `Attachments.FirstPresentAt` | vk_rss/vk_rss.py:57-61 | the `or`-chain of `get`s yields the URL under the first key that is present with a non-empty value, whatever later keys hold |
| `Attachments.PhotoUrlIsBestPresent` | vk_rss/vk_rss.py:57-63 | a photo is shown by the URL of the first present key among photo_2560, 1280, 807, 604, 130, 75, and changing lower-resolution keys does not change it; the photo renders as the image fragment of that URL captioned with its `text` |
| `Attachments.VideoUrlIsBestPresent` | vk_rss/vk_rss.py:76-81 | the same for a video over photo_800, 640, 320, 130; the video renders as the image fragment of that URL captioned `{title} [Video]` |
| `Attachments.ImageTagImagePart` | vk_rss/vk_rss.py:176-178 | an image fragment cut at its first `<p>` is exactly the `<img src="url">` element, when the URL holds no `<p>` |
| `Attachments.AlbumShowsThumbImage` | vk_rss/vk_rss.py:152-153 | an album is its thumbnail's image element followed by `<p>{title} [Album]</p>`, when the thumbnail URL holds no `<p>` |
| `Attachments.LinkShowsPreviewImage` | vk_rss/vk_rss.py:130-139 | a link is `<a href=url>` around the preview image (empty without a photo) and `<p>{title} [Link]</p>`, when the preview URL holds no `<p>` |
| `Attachments.AudioShape` | vk_rss/vk_rss.py:92-96 | an audio renders as `<a href="{url}">{artist} - {title} [Audio]</a>` |
| `Attachments.DocShape` | vk_rss/vk_rss.py:109-117 | a doc of type 3 is an image fragment captioned with its title; any other doc is a link showing its size in MiB and `[Doc]` |
| `Attachments.HundredthsOfMiB` | vk_rss/vk_rss.py:113-116 | the size in hundredths of a MiB is the nearest whole number to the exact quotient, ties going to the even one, as `{:.2f}` rounds |
| `Attachments.MegabytesTextReadsBack` | vk_rss/vk_rss.py:113-116 | the size text is digits, a point and two digits, and reading it without the point gives the rounded hundredths |
| `Attachments.TwoMiBText` | vk_rss/vk_rss.py:113-116 | 2097152 bytes is shown as `2.00` |
| `Attachments.EighthMiBText` | vk_rss/vk_rss.py:113-116 | 131072 bytes (exactly 0.125 MiB) is shown as `0.12` |
| `Attachments.PollLinesShape` | vk_rss/vk_rss.py:166-174 | a poll has `len(answers) + 4` lines: the question, 30 dashes, one `{text} -- {rate}` per answer in answer order, 30 dashes, the vote count |
| `Attachments.RenderPoll` | vk_rss/vk_rss.py:157-174 | the loop that appends the lines one by one returns the `<br>`-join of exactly those lines |
| `Attachments.Render` | vk_rss/vk_rss.py:38-45 | rendering succeeds exactly for photo, video, audio, doc, link, album and poll, and otherwise raises `KeyError` carrying the attachment's type |
| `Attachments.RenderDefinedOnTable` | vk_rss/vk_rss.py:38-43 | rendering succeeds exactly when the type string is a key of the dispatch table |
| `Attachments.RenderAttachment` | vk_rss/vk_rss.py:33-45 | dispatch as run, with the poll built by its loop, equals `Render(a)` |
| `Text.JoinSplitIsReplace` | vk_rss/vk_rss.py:228 | joining the lines of the text with `<br>` replaces each line break by `<br>` |
| `Text.SplitJoinRoundTrip` | vk_rss/vk_rss.py:228 | splitting on a character and joining with it gives back the text |
| `Text.BeforeFirst` | vk_rss/vk_rss.py:133 | `s.split(pat)[0]` is the prefix of `s` up to the first occurrence of `pat`, or all of `s` when there is none |
| `Text.IntToStringRoundTrip` | vk_rss/vk_rss.py:255-257 | the decimal spelling of an id reads back to the same integer |
| `Text.IntToStringInjective` | vk_rss/vk_rss.py:170 | distinct rates, vote counts and ids are spelled differently |
| `Text.MapAt` | vk_rss/vk_rss.py:169-170 | one line per answer, each at its answer's position |
| `Posts.FlagOrderComplete` | vk_rss/vk_rss.py:197-200 | every one of the seven acknowledged kinds is a key of the flag table exactly once |
| `Posts.NoticeTagInjective` | vk_rss/vk_rss.py:181-183 | different kind names give different notices |
| `Posts.NoticeInjective` | vk_rss/vk_rss.py:181-183 | different acknowledged kinds give different notices |
| `Posts.HasKindIff` | vk_rss/vk_rss.py:204-209 | a kind's flag is raised by the attachments exactly when some attachment has that type |
| `Posts.FlagTableMeaning` | vk_rss/vk_rss.py:197-210 | after the pass over the attachments, each key's flag says whether an attachment of that kind occurred |
| `Posts.PostFlagTableMeaning` | vk_rss/vk_rss.py:217-219 | a non-zero comment count (a missing one counts as 0) also raises the `comments` flag |
| `Posts.ScanAttachments` | vk_rss/vk_rss.py:196-213 | the first loop renders the non-acknowledged attachments in order and records the flags, and stops at the first failing `render` |
| `Posts.AppendNotices` | vk_rss/vk_rss.py:223-225 | the second loop appends the notice of every set flag, in table order, after the fragments |
| `Posts.SetKeysAreNoticed` | vk_rss/vk_rss.py:223-225 | the keys the second loop picks are exactly the flagged kinds |
| `Posts.DescriptionPost` | vk_rss/vk_rss.py:185-230 | `description_post` as run returns text + `<br>` + the `<br>`-join of fragments followed by notices, or the first exception |
| `Posts.NoticedCount` | vk_rss/vk_rss.py:223-225 | a scan over a list of kinds notices each flagged kind as often as it is listed and no unflagged kind |
| `Posts.NoticeOncePerFlaggedKind` | vk_rss/vk_rss.py:204-225 | each acknowledged kind that is present yields exactly one notice however often it repeats, and an absent one none |
| `Posts.NoticeShownIff` | vk_rss/vk_rss.py:204-225 | a kind's notice is among the description's notices exactly when the kind is flagged |
| `Posts.CommentsNoticeIff` | vk_rss/vk_rss.py:204-219 | the comments notice appears exactly when the comment count is non-zero or a `comments` attachment is present |
| `Posts.DescriptionOfPlainPost` | vk_rss/vk_rss.py:228-230 | with no attachments and no comments the description is the text with every line break replaced by `<br>`, plus a trailing `<br>` |
| `Posts.DescriptionOfTwoLines` | vk_rss/vk_rss.py:228-230 | two plain lines such as `Hello` and `World` become `Hello<br>World<br>` |
| `Posts.RepeatedFlagKind` | vk_rss/vk_rss.py:208-210 | one more attachment of an acknowledged kind already present leaves the description unchanged |
| `Posts.FragmentsOkIff` | vk_rss/vk_rss.py:204-213 | the attachments render without an exception exactly when none has a type outside both tables |
| `Posts.FragmentsInOrder` | vk_rss/vk_rss.py:204-213 | the fragments are the renderings of the non-acknowledged attachments, one each, in attachment order |
| `Feed.Title` | vk_rss/vk_rss.py:249-253 | a non-empty text gives its first min(20, len) characters followed by `...`; an empty text gives the group name |
| `Feed.PostParsing` | vk_rss/vk_rss.py:232-261 | `post_parsing` as run, with the description built by its loops, equals `ParsePost`: the item record, or the description's exception |
| `Feed.GuidRoundTrip` | vk_rss/vk_rss.py:257 | a guid reads back to the post's `from_id` and `id` |
| `Feed.GuidInjective` | vk_rss/vk_rss.py:257 | posts with the same guid have the same owner and id |
| `Feed.ItemOfPost` | vk_rss/vk_rss.py:249-259 | the link is the wall address followed by the guid, the guid names the parsed post, and the description, title and date are the post's |
| `Feed.ParsePostErr` | vk_rss/vk_rss.py:256 | parsing a post fails exactly when its description raises, with that exception |
| `Feed.SelectItems` | vk_rss/vk_rss.py:316-329 | the selection loop with `continue` equals `FeedItems`: the items in wall order, or the first exception |
| `Feed.CollectErrSticks` | vk_rss/vk_rss.py:316-327 | after an exception no later post changes the outcome |
| `Feed.FeedItemsAppend` | vk_rss/vk_rss.py:316-329 | the items of two runs of posts are the items of the first followed by those of the second |
| `Feed.AtMostOnePerPost` | vk_rss/vk_rss.py:318-329 | each post contributes at most one item |
| `Feed.FeedNoLongerThanWall` | vk_rss/vk_rss.py:316-329 | the feed never has more items than the wall has posts |
| `Feed.AdsDropped` | vk_rss/vk_rss.py:318-319 | the feed of a wall equals the feed of its posts that are not ads |
| `Feed.RepostsOff` | vk_rss/vk_rss.py:320-329 | with reposts off, the feed equals the feed of the original posts that are not ads |
| `Feed.OriginalPostItem` | vk_rss/vk_rss.py:321-322 | a post that is neither an ad nor a repost yields its own item |
| `Feed.RepostItem` | vk_rss/vk_rss.py:326-327 | with reposts on, a repost yields the item of `copy_history[0]` under the current group name, with that post's guid; an empty copy history raises `IndexError` |
| `Feed.ClubNameIsOwnerId` | vk_rss/vk_rss.py:289-294 | a group called `club<n>` is queried by owner id `-n`, 60 posts |
| `Feed.OtherNameIsDomain` | vk_rss/vk_rss.py:281-289 | a group name that does not start with `club` is queried by that name, 60 posts |
| `Feed.ClubShortName` | vk_rss/vk_rss.py:289-296 | `club` followed by nothing or by something that is not a number is still queried by name |

## Left out

- The VK API calls (`wall.get`, `groups.getById`, authentication) and the error path after `VkApiError`, which leaves `posts` undefined. The posts and the group name are inputs of `Feed.SelectItems`, and `Feed.WallQueryFor` only builds the query's arguments.
- `FeedGenerator`, the feed-level title, link and description, `lastBuildDate`, and writing the XML file and its directory. These are a foreign library and file I/O. The model stops at the sequence of item records in loop order; the order in which the library writes entries is not part of the model.
- `pubDate`: `datetime.fromtimestamp` in the local time zone depends on the clock and time-zone database. The item carries the post's `date` as given.
- Missing dictionary keys other than `attachments`, `comments` and `copy_history` (e.g. a photo without `text`) are not modelled. Every payload field the renderers read is taken to be present.
- Python truthiness is not modelled beyond these points:
  - a size key counts as present when it is there with a non-empty URL;
  - a missing link preview counts as no photo;
  - `marked_as_ads` is a boolean.

  A link preview that is an empty dictionary is not distinguished from a missing one.
- Attachments.HundredthsOfMiB: states exact round-half-to-even of `size / 2**20` to two decimals. Python formats the double `size / 1024**2`; because the divisor is a power of two, that quotient is exact for every size below 2**53, and `{:.2f}` rounds the exact binary value half to even. For larger sizes the double is already rounded and the model may differ.
- Attachments.DocData: `size` is a natural number. A negative size, which `{:.2f}` would print with a minus sign, is not modelled; the API does not send one.
- Attachments.AnswerLine: poll rates are integers. A fractional rate printed by `str(float)` is not modelled.
- Feed.WallQueryFor: the suffix after `club` must be ASCII digits. Python's `int()` also accepts signs, surrounding whitespace, underscores and non-ASCII digits.
- Posts.DescriptionPost: the model splits `description_post` into one method per loop (`ScanAttachments`, `AppendNotices`). The flag table is a map from the seven kinds to booleans instead of a dictionary of 0/1 keyed by strings; its iteration order is the insertion order of the comprehension.
