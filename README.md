# eml-image-optimizer: the attachment shrinker, modelled in Dafny

`email_attachment_shrinker.py` reads a mail message, walks its MIME tree with
`process_parts` and replaces every image attachment by a new part that carries
a copy of the image rotated upright, shrunk into 1920x1080 and re-encoded as
JPEG (`resize_image`). Everything else in the message is left as it was.

This project models that core:

- `Mime` is the data model. A message is a tree of `Part` values. A
  `Container` is a multipart node: its content type, its headers and its
  ordered children. A `Leaf` is any other part: its content type, its
  Content-Disposition value and file name if it has them, its other headers in
  order, and its body as stored.
- `Shrinker` is `process_parts` (lines 31-63). `get_filename()` at line 44 may
  raise before the test is reached (`FilenameRaises`). `IsEligible` is the
  test at line 46 for a disposition that is a string. A disposition holding raw 8-bit bytes comes
  back from `get()` as an `email.header.Header` object. That object is truthy
  and has no `startswith`, so the test raises AttributeError
  (`HasUndecodedDisposition`). `RewriteLeaf` is the leaf branch (lines
  42-63) and `AttachmentPart` the part it builds (lines 55-59). Building that part raises ValueError
  when the content type or the new Content-Disposition value would span
  several lines, because the email policy refuses such header values
  (`MimeParams.SplitsIntoLines`).
  `Rewritten` / `RewrittenChildren` give the result of the whole recursion
  (lines 33-40 for a multipart node): the new tree or the exception that
  escapes it. `ProcessParts` is the source's
  own loop, which collects the rewritten children and stores them back into the
  node. It is proved to return `Rewritten` for every `depth`.
- `MimeParams` is the Content-Disposition value that `add_header(...,
  filename=...)` writes. It covers `email.utils.quote`, and `email.utils.unquote`
  as the reader uses it. One unquoting of the quoted file name is proved to
  give the name back; `get_filename()` does more than that on reading (see
  "Left out").
- `Exif` is the EXIF dictionary and the removal of the orientation tag (0x0112)
  from its "0th" table (lines 19-20). `ExifDictionary.PopOrientation` does it in place, as
  the source does.
- `ImagePipeline` is `resize_image` (lines 9-29): a function `Resized` and the
  step-by-step method `ResizeImage`. The Pillow and piexif steps are fields of `ImageLib`;
  each may raise.
- `RewriteProperties` holds the whole-tree theorems. The multipart skeleton is
  kept (`SameShape`). On the leaves, read in document order, the rewrite acts
  leaf by leaf. The first exception aborts everything.

The library calls are parameters, not definitions: Pillow, piexif, the email
package's payload decoding, base64 (RFC 4648 section 4) and the percent-encoding
of RFC 2231 parameters. They sit in `ImagePipeline.ImageLib` and `Shrinker.Env`,
so every theorem holds for every behaviour of those libraries.

Where the intended design of the tool and this code differ, the model follows
the code:
- only a disposition that begins with `attachment` qualifies, so inline images
  with a Content-ID are never rewritten;
- the new part keeps the content type that `get_content_type()` reports
  (lower-case, without parameters) rather than becoming `image/jpeg`;
- the new part drops every other original header, Content-ID included;
- an exception from `resize_image` or from the email package is not caught:
  it aborts the whole rewrite. Nothing fails open.

## Model

| member | source | states |
|---|---|---|
| `Shrinker.ProcessParts` | email_attachment_shrinker.py:31-63 | the loop-and-store implementation returns exactly `Rewritten(env, p)`, whatever `depth` is: depth only indents diagnostics |
| `Shrinker.RewriteLeaf` | email_attachment_shrinker.py:42-63 | the leaf branch turns a leaf into a leaf, never into a multipart node |
| `Shrinker.EligibilityDecidesRewrite` | email_attachment_shrinker.py:43-63 | a leaf on which `get_filename()` raises raises that exception; otherwise a leaf whose disposition is raw 8-bit bytes raises AttributeError; a leaf lacking a string disposition that begins with "attachment" (case-sensitive), a content type beginning "image/" or a non-empty file name comes back as it is; any other leaf raises `resize_image`'s exception or becomes the part built from its output |
| `Shrinker.InlineNeverEligible` | email_attachment_shrinker.py:46 | a leaf whose disposition begins with "inline" is never eligible, whatever Content-ID it has |
| `Shrinker.IneligibleLeafUnchanged` | email_attachment_shrinker.py:46-63 | an ineligible leaf is returned unchanged (same content type, disposition, file name, headers and body), unless `get_filename()` raises on it (that exception) or its disposition is raw 8-bit bytes (AttributeError at the test) |
| `Shrinker.NonImageOrInlineLeafUnchanged` | email_attachment_shrinker.py:46-63 | every inline leaf, and every non-image leaf whose disposition is a string or absent, is returned unchanged, unless `get_filename()` raises on it; a non-image leaf with a raw 8-bit disposition raises AttributeError |
| `Shrinker.RewrittenLeafShape` | email_attachment_shrinker.py:48-60 | when the image resizes, the leaf is rewritten iff neither the content type nor the new disposition spans several lines (for an ASCII name: iff the name holds no line boundary; for a non-ASCII name under a percent-encoding that writes only URL-safe characters: iff the content type is one line); the new leaf has the original content type, a disposition beginning "attachment" (for an ASCII name exactly `attachment; filename="<quoted name>"`), the original file name, exactly the headers MIME-Version 1.0 and Content-Transfer-Encoding base64, and the base64 text of the resized bytes as its body; for an ASCII name the quoted name in the header unquotes to the original |
| `Shrinker.RewrittenLeafIgnoresOldHeaders` | email_attachment_shrinker.py:55-59 | two eligible leaves with the same content type, file name and decoded body rewrite to the same part: no other original header survives |
| `Shrinker.LeafRaises` | email_attachment_shrinker.py:43-57 | a leaf raises iff `get_filename()` raises on it (that exception, line 44), or its disposition is raw 8-bit bytes (AttributeError at the test), or it is eligible and either `resize_image` raises on its decoded body (that exception) or the content type or new disposition spans several lines (ValueError when the header is stored) |
| `Shrinker.RewrittenPartStaysEligible` | email_attachment_shrinker.py:46-57 | the rewritten part, with the name written into its header as its file name, passes the eligibility test again |
| `Shrinker.ChildrenPointwise` | email_attachment_shrinker.py:35-39 | the loop over the children succeeds iff every child does; it then keeps their number and order, entry i being child i rewritten |
| `Shrinker.ChildrenFirstRaising` | email_attachment_shrinker.py:36-38 | when the loop over the children raises, the exception is that of the first child, in order, whose rewrite raises; every earlier child succeeded |
| `Shrinker.ContainerRewritten` | email_attachment_shrinker.py:33-40 | a multipart node keeps its content type and headers and gets a child list of the same length, entry i being child i rewritten; it raises iff a child does, with the first such exception |
| `RewriteProperties.ShapePreserved` | email_attachment_shrinker.py:33-40 | the output has the input's multipart skeleton: same nesting, same child counts and order, same container content types and headers |
| `RewriteProperties.Leafwise` | email_attachment_shrinker.py:31-63 | the rewrite, seen on the leaves in document order, is the reference behaviour: rewrite leaf after leaf and stop at the first exception |
| `RewriteProperties.RewriteLeafByLeaf` | email_attachment_shrinker.py:31-63 | the whole call succeeds iff every leaf's rewrite does; on success the output keeps the skeleton and its i-th leaf is the input's i-th leaf rewritten; on failure the error is the first raising leaf's |
| `RewriteProperties.IneligibleLeavesKept` | email_attachment_shrinker.py:61-63 | every ineligible leaf of the input appears unchanged at its place among the output's leaves |
| `RewriteProperties.ErrorsPropagate` | email_attachment_shrinker.py:36-57 | the whole call raises iff some leaf raises (`get_filename()` raises, raw 8-bit disposition, or an eligible leaf whose image cannot be resized or whose new headers span several lines), and then with the exception of the first such leaf in document order, for its reason; there is no partial result |
| `RewriteProperties.NoEligibleLeafNoChange` | email_attachment_shrinker.py:31-63 | a message with no eligible leaf, no raw 8-bit disposition and no leaf on which `get_filename()` raises comes back exactly as it was |
| `MimeParams.AttachmentDisposition` | email_attachment_shrinker.py:57 | the new Content-Disposition value begins with "attachment", so it passes the test at line 46 |
| `MimeParams.AttachmentFilenameReadsBack` | email_attachment_shrinker.py:57 | for a non-empty ASCII file name the value is `attachment; filename="<quoted name>"`, for the empty name `attachment; filename`; the quoted string unquotes back to the name |
| `MimeParams.AsciiDispositionSplitsIff` | email_attachment_shrinker.py:57 | for a non-empty ASCII file name, the new Content-Disposition value spans several lines (and is refused) iff the name holds a line boundary |
| `MimeParams.NonAsciiDispositionSingleLine` | email_attachment_shrinker.py:57 | for a non-ASCII file name and a percent-encoding that writes only URL-safe characters, the `filename*=utf-8''` value is a single line and is never refused |
| `MimeParams.QuoteKeepsLineBoundaries` | email_attachment_shrinker.py:57 | quoting the file name neither adds nor removes a line boundary |
| `MimeParams.UnquoteQuote` | email_attachment_shrinker.py:57 | the quoted file name written into the header unquotes back to the file name, for every name |
| `Exif.WithoutOrientation` | email_attachment_shrinker.py:19-20 | afterwards the "0th" table holds no Orientation (0x0112) entry; its other tags, every other table and the set of tables are unchanged |
| `Exif.WithoutOrientationNoop` | email_attachment_shrinker.py:19 | with no "0th" table, or no orientation tag in it, the dictionary is unchanged |
| `Exif.WithoutOrientationIdempotent` | email_attachment_shrinker.py:19-20 | removing the tag twice is removing it once |
| `Exif.WithoutOrientationForgets` | email_attachment_shrinker.py:19-20 | two dictionaries give the same result iff they agree on everything except the orientation tag of "0th" |
| `Exif.ExifDictionary.PopOrientation` | email_attachment_shrinker.py:19-20 | the in-place pop leaves the dictionary equal to `WithoutOrientation` of its old value |
| `ImagePipeline.ResizeImage` | email_attachment_shrinker.py:9-29 | the step-by-step version, reassigning the image and popping the tag from the dictionary object, returns exactly `Resized` |
| `ImagePipeline.ResizedRaisesOnUndecodable` | email_attachment_shrinker.py:10 | bytes that Pillow cannot open make `resize_image` raise that exception |
| `ImagePipeline.ResizedIgnoresOrientationTag` | email_attachment_shrinker.py:13-28 | the output does not depend on the orientation tag of the loaded EXIF: loads that agree except on that tag give the same bytes |

## Left out

- `process_eml` and the `__main__` entry point (lines 65-80): file I/O, parsing with `message_from_binary_file` and writing with `BytesGenerator`.
- Every `print`, the KB-size arithmetic, and the re-opening of the resized image that only feeds the log (lines 34, 45, 47, 50-53, 62).
- Pillow's work: decoding, `exif_transpose`, `thumbnail` and the JPEG encoder. These are foreign codec calls with floating-point resampling, so they are fields of `ImageLib`. The arguments are passed to them as the source passes them: (1920, 1080) and `Image.LANCZOS` to `thumbnail`; "JPEG", quality 90, `optimize=True` and the dumped EXIF to `save`. The bounding-box arithmetic lives inside Pillow, so no bound on the output dimensions is stated.
- piexif's `load` and `dump`, and the `'thumbnail'` entry of piexif's dictionary, which holds bytes rather than a tag table.
- The email package's parsing, `get_payload(decode=True)`, the base64 codec and the RFC 2231 percent-encoding. They are fields of `Shrinker.Env`. The percent-encoding is not restricted by `Env`. `MimeParams.EncodesUrlSafe` states what `urllib.parse.quote(s, safe='')` writes, and the lemmas that need it take it as a hypothesis.
- `get_content_type()` and `get_filename()`: their results are the `ctype` and `filename` fields of `Leaf`. `get_filename()` can raise while it decodes the parameters. A `filename*` in a charset whose codec refuses the "replace" error mode (such as idna) raises UnicodeError. Continuations `filename*0` mixed with a plain `filename*` raise TypeError when they are sorted. The model records such a call as `Raises(e)` with the exception taken as given; which parameter texts raise is not modelled. Only the disposition is modelled as possibly a `Header` object, because both calls turn such an object into text.
- The Content-Type parameters (`name=`, `charset=`) and the letter case of the original Content-Type header. `Leaf.ctype` holds only the normalised type that `set_type` writes back, so it does not show that the new part drops them.
- The header objects that the email policy parses from the stored values, and their defects. Of the policy's checks, only the refusal of a value spanning several lines is modelled.
- Header storage order: a `Leaf` keeps its Content-Type and Content-Disposition apart from its other headers. The position of those two among the rest, such as MIME-Version, Content-Type, Content-Disposition, Content-Transfer-Encoding for a new part, is not represented.
- In-place mutation and aliasing: the source stores the new child list into the parsed node itself. The model builds a new value `p.(children := ...)` with the same content type and headers. The model therefore does not show that, when an exception escapes, subtrees rewritten before it have already been changed in the caller's tree.
- The mix of a compat32 parent with the `EmailMessage` child when the tree is written out.
- `MimeParams.UnquoteQuote`: states one `email.utils.unquote` only. `get_filename()` splits the parameters, unquotes the value once in `get_param`, once more in `collapse_rfc2231_value`, and strips the result. That reading is not modelled.
- `Shrinker.RewrittenPartStaysEligible`: the new leaf's `filename` is the name written into the header, not what `get_filename()` reads back from it. The second unquote and the strip are not modelled, so a name in `<...>` or `"..."` loses its brackets or quotes on reading. For `< >` the read-back name is empty, and a second run would leave that part alone. The lemma therefore does not show that a second run shrinks every rewritten part again.
- `set_type`'s check that the content type holds exactly one `/`, which raises ValueError otherwise, is not modelled. `ctype` is what `get_content_type()` returns, and that is always `maintype/subtype` with one slash.
