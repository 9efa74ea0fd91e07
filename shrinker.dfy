/** `process_parts`: walk the message tree, replace every image attachment by a
    freshly built part holding the shrunk image, and keep everything else. */
module Shrinker {
  import opened Wrappers
  import opened Mime
  import opened MimeParams
  import opened ImagePipeline

  /** The library calls the rewriter makes besides `resize_image`. */
  datatype Env = Env(
    lib: ImageLib,
    decodePayload: Part -> seq<byte>,    // msg.get_payload(decode=True)
    base64Encode: seq<byte> -> seq<byte>, // base64.b64encode(...).decode('ascii')
    percentEncode: string -> string       // the percent-encoding of an RFC 2231 parameter
  )

  /** Python's `s.startswith(prefix)`. */
  predicate StartsWith(s: string, prefix: string) {
    |prefix| <= |s| && s[..|prefix|] == prefix
  }

  /** A leaf on which `get_filename()` (line 44) raises. */
  predicate FilenameRaises(p: Part) {
    p.Leaf? && p.filename.Raises?
  }

  /** A leaf whose Content-Disposition holds raw 8-bit bytes: `get()` hands
      back an `email.header.Header` object. */
  predicate HasUndecodedDisposition(p: Part) {
    p.Leaf? && p.disposition.Some? && p.disposition.value.Undecoded8Bit?
  }

  /** `disp and disp.startswith("attachment") and ctype.startswith("image/") and filename`
      for a disposition that is a string (or absent). */
  predicate IsEligible(p: Part) {
    && p.Leaf?
    && p.disposition.Some? && p.disposition.value.Text?
    && p.disposition.value.text != "" && StartsWith(p.disposition.value.text, "attachment")
    && StartsWith(p.ctype, "image/")
    && p.filename.Found? && p.filename.name != ""
  }

  /** The test at line 46 on a `Header` object: it is truthy, and then
      `disp.startswith` does not exist. */
  const NoStartsWith: Exception :=
    Exception("AttributeError", "'Header' object has no attribute 'startswith'")

  /** What the email policy raises for a header value of several lines. */
  const MultilineHeader: Exception :=
    Exception("ValueError", "Header values may not contain linefeed or carriage return characters")

  /** The headers of a rewritten part besides its Content-Type and
      Content-Disposition: the MIME-Version that `set_type` adds and the
      transfer encoding. */
  const RewrittenHeaders: seq<Header> :=
    [Header("MIME-Version", "1.0"), Header("Content-Transfer-Encoding", "base64")]

  /** The headers written for eligible `p` are refused: `set_type(ctype)` or
      `add_header("Content-Disposition", ...)` stores a value of several lines. */
  predicate NewHeadersBreak(env: Env, p: Part)
    requires IsEligible(p)
  {
    SplitsIntoLines(p.ctype) || SplitsIntoLines(AttachmentDisposition(env.percentEncode, p.filename.name))
  }

  /** The part built by `EmailMessage()`, `set_type(ctype)`,
      `add_header("Content-Disposition", "attachment", filename=filename)`,
      `add_header('Content-Transfer-Encoding', 'base64')` and
      `set_payload(base64 of data)`; storing a Content-Type or
      Content-Disposition value of several lines raises.  The new leaf's
      `filename` is the name written into the header. */
  function AttachmentPart(env: Env, ctype: string, filename: string, data: seq<byte>): Result<Part, Exception> {
    if SplitsIntoLines(ctype) then Failure(MultilineHeader)
    else
      var disposition := AttachmentDisposition(env.percentEncode, filename);
      if SplitsIntoLines(disposition) then Failure(MultilineHeader)
      else Success(Leaf(ctype, Some(Text(disposition)), Found(filename), RewrittenHeaders, env.base64Encode(data)))
  }

  /** The leaf branch of `process_parts`. */
  function RewriteLeaf(env: Env, p: Part): (r: Result<Part, Exception>)
    ensures r.Success? ==> r.value.Leaf? == p.Leaf?
  {
    if FilenameRaises(p) then
      Failure(p.filename.error)
    else if HasUndecodedDisposition(p) then
      Failure(NoStartsWith)
    else if IsEligible(p) then
      var resized :- Resized(env.lib, env.decodePayload(p));
      AttachmentPart(env, p.ctype, p.filename.name, resized)
    else
      Success(p)
  }

  /** The result of `process_parts(p)`: the rewritten tree, or the exception
      that escapes it. */
  function Rewritten(env: Env, p: Part): Result<Part, Exception>
    decreases p
  {
    match p
    case Container(_, _, children) =>
      var rewritten :- RewrittenChildren(env, children);
      Success(p.(children := rewritten))
    case Leaf(_, _, _, _, _) =>
      RewriteLeaf(env, p)
  }

  /** `new_parts` after the loop over `cs`: each child rewritten in order; the
      first exception stops the loop. */
  function RewrittenChildren(env: Env, cs: seq<Part>): Result<seq<Part>, Exception>
    decreases cs
  {
    if cs == [] then Success([])
    else
      var done :- RewrittenChildren(env, cs[..|cs| - 1]);
      var last :- Rewritten(env, cs[|cs| - 1]);
      Success(done + [last])
  }

  /** Once the loop has met an exception, the rest of the children do not matter. */
  lemma {:induction false} PrefixFailureSticks(env: Env, cs: seq<Part>, k: nat)
    requires k <= |cs| && RewrittenChildren(env, cs[..k]).Failure?
    ensures RewrittenChildren(env, cs) == RewrittenChildren(env, cs[..k])
    decreases |cs| - k
  {
    if k < |cs| {
      var init := cs[..|cs| - 1];
      assert init[..k] == cs[..k];
      PrefixFailureSticks(env, init, k);
    } else {
      assert cs[..k] == cs;
    }
  }

  /** `process_parts(msg, depth)` as the source runs it: the multipart branch
      collects the rewritten children in a loop and stores them back into the
      node; the leaf branch returns the part itself or a new one.  The result is
      the same for every `depth`: it only indents the diagnostics. */
  method ProcessParts(env: Env, p: Part, depth: nat) returns (r: Result<Part, Exception>)
    ensures r == Rewritten(env, p)
    decreases p
  {
    if p.Container? {
      var newParts: seq<Part> := [];
      var i := 0;
      while i < |p.children|
        invariant 0 <= i <= |p.children|
        invariant RewrittenChildren(env, p.children[..i]) == Success(newParts)
      {
        var newPart := ProcessParts(env, p.children[i], depth + 1);
        assert p.children[..i + 1][..i] == p.children[..i];
        if newPart.Failure? {
          PrefixFailureSticks(env, p.children, i + 1);
          return Failure(newPart.error);
        }
        newParts := newParts + [newPart.value];
        i := i + 1;
      }
      assert p.children[..i] == p.children;
      r := Success(p.(children := newParts));
    } else if FilenameRaises(p) {
      r := Failure(p.filename.error);
    } else if HasUndecodedDisposition(p) {
      r := Failure(NoStartsWith);
    } else if IsEligible(p) {
      var originalData := env.decodePayload(p);
      var resizedData :- ResizeImage(env.lib, originalData);
      r := AttachmentPart(env, p.ctype, p.filename.name, resizedData);
    } else {
      r := Success(p);
    }
  }

  // ---- eligibility ----

  /** What lines 44-46 decide, stated with prefixes: `get_filename()` may
      raise; then a disposition of raw 8-bit bytes raises; a leaf that lacks a string disposition beginning with
      "attachment" (case-sensitive), a content type beginning with "image/" or
      a non-empty file name comes back as it is; any other leaf raises the
      exception of `resize_image` or becomes the part built from its output. */
  lemma EligibilityDecidesRewrite(env: Env, p: Part)
    requires p.Leaf?
    ensures FilenameRaises(p) ==> Rewritten(env, p) == Failure(p.filename.error)
    ensures !FilenameRaises(p) && HasUndecodedDisposition(p) ==> Rewritten(env, p) == Failure(NoStartsWith)
    ensures var passes :=
      && p.disposition.Some? && p.disposition.value.Text? && "attachment" <= p.disposition.value.text
      && "image/" <= p.ctype
      && p.filename.Found? && |p.filename.name| > 0;
      && (!FilenameRaises(p) && !HasUndecodedDisposition(p) && !passes ==> Rewritten(env, p) == Success(p))
      && (passes ==>
            Rewritten(env, p) == (match Resized(env.lib, env.decodePayload(p))
                                  case Failure(e) => Failure(e)
                                  case Success(out) => AttachmentPart(env, p.ctype, p.filename.name, out)))
  {
  }

  /** An inline image is never eligible, whatever other headers (Content-ID
      among them) it carries. */
  lemma InlineNeverEligible(p: Part)
    requires p.Leaf? && p.disposition.Some? && p.disposition.value.Text?
    requires "inline" <= p.disposition.value.text
    ensures !IsEligible(p)
  {
    assert p.disposition.value.text[0] == "inline"[0];
  }

  // ---- the leaf branch ----

  /** Every ineligible leaf is returned unchanged (same content type,
      disposition, file name, headers and payload), unless `get_filename()`
      raises on it or its disposition holds raw 8-bit bytes: then the
      exception escapes. */
  lemma IneligibleLeafUnchanged(env: Env, p: Part)
    requires p.Leaf? && !IsEligible(p)
    ensures FilenameRaises(p) ==> Rewritten(env, p) == Failure(p.filename.error)
    ensures !FilenameRaises(p) && HasUndecodedDisposition(p) ==> Rewritten(env, p) == Failure(NoStartsWith)
    ensures !FilenameRaises(p) && !HasUndecodedDisposition(p) ==> Rewritten(env, p) == Success(p)
  {
  }

  /** In particular every inline leaf, and every non-image leaf whose
      disposition is a string or absent, as long as `get_filename()` does not
      raise. */
  lemma NonImageOrInlineLeafUnchanged(env: Env, p: Part)
    requires p.Leaf?
    requires !("image/" <= p.ctype) ||
             (p.disposition.Some? && p.disposition.value.Text? && "inline" <= p.disposition.value.text)
    ensures FilenameRaises(p) ==> Rewritten(env, p) == Failure(p.filename.error)
    ensures !FilenameRaises(p) && HasUndecodedDisposition(p) ==> Rewritten(env, p) == Failure(NoStartsWith)
    ensures !FilenameRaises(p) && !HasUndecodedDisposition(p) ==> Rewritten(env, p) == Success(p)
  {
    if p.disposition.Some? && p.disposition.value.Text? && "inline" <= p.disposition.value.text {
      InlineNeverEligible(p);
    } else {
      EligibilityDecidesRewrite(env, p);
    }
  }

  /** An eligible leaf whose image can be resized becomes a new part exactly
      when its headers can be stored: the content type and the new disposition
      are single lines (for an ASCII name: the name holds no line boundary;
      for a non-ASCII name, when the percent-encoding writes only URL-safe
      characters: the content type is a single line).
      The new part has the original content type, a Content-Disposition
      "attachment" naming the original file, the two fixed headers and the
      base64 text of the resized image as its body; for an ASCII name the
      quoted file name in the header reads back as the original name. */
  lemma RewrittenLeafShape(env: Env, p: Part)
    requires IsEligible(p) && Resized(env.lib, env.decodePayload(p)).Success?
    ensures Rewritten(env, p).Success? <==> !NewHeadersBreak(env, p)
    ensures IsAscii(p.filename.name) ==>
      (Rewritten(env, p).Success? <==> !SplitsIntoLines(p.ctype) && !HasLineBoundary(p.filename.name))
    ensures EncodesUrlSafe(env.percentEncode) && !IsAscii(p.filename.name) ==>
      (Rewritten(env, p).Success? <==> !SplitsIntoLines(p.ctype))
    ensures Rewritten(env, p).Success? ==>
      var q := Rewritten(env, p).value;
      && q.Leaf?
      && q.ctype == p.ctype
      && q.filename == p.filename
      && q.headers == RewrittenHeaders
      && q.payload == env.base64Encode(Resized(env.lib, env.decodePayload(p)).value)
      && q.disposition.Some? && q.disposition.value.Text? && "attachment" <= q.disposition.value.text
      && (IsAscii(p.filename.name) ==>
            && q.disposition.value.text == "attachment; " + ("filename=" + QuotedString(p.filename.name))
            && Unquote(QuotedString(p.filename.name)) == p.filename.name)
  {
    var f := p.filename.name;
    var out := Resized(env.lib, env.decodePayload(p)).value;
    assert Rewritten(env, p) == AttachmentPart(env, p.ctype, f, out);
    if IsAscii(f) {
      AttachmentFilenameReadsBack(env.percentEncode, f);
      AsciiDispositionSplitsIff(env.percentEncode, f);
    } else if EncodesUrlSafe(env.percentEncode) {
      NonAsciiDispositionSingleLine(env.percentEncode, f);
    }
  }

  /** Nothing of the original part but its content type, its file name and its
      decoded body reaches the new part: its other headers (Content-ID among
      them) and the rest of its disposition are dropped. */
  lemma RewrittenLeafIgnoresOldHeaders(env: Env, p1: Part, p2: Part)
    requires IsEligible(p1) && IsEligible(p2)
    requires p1.ctype == p2.ctype && p1.filename == p2.filename
    requires env.decodePayload(p1) == env.decodePayload(p2)
    ensures Rewritten(env, p1) == Rewritten(env, p2)
  {
  }

  /** A leaf raises exactly when `get_filename()` raises on it, or its
      disposition holds raw 8-bit bytes, or it is eligible and either
      `resize_image` raises on its decoded body or the new headers cannot be
      stored; the exception is, in that order, that of `get_filename()`, the
      AttributeError of the test, that of `resize_image`, or the ValueError of
      the email policy. */
  lemma LeafRaises(env: Env, p: Part)
    requires p.Leaf?
    ensures Rewritten(env, p).Failure? <==>
      || FilenameRaises(p)
      || HasUndecodedDisposition(p)
      || (IsEligible(p) && (Resized(env.lib, env.decodePayload(p)).Failure? || NewHeadersBreak(env, p)))
    ensures FilenameRaises(p) ==> Rewritten(env, p) == Failure(p.filename.error)
    ensures !FilenameRaises(p) && HasUndecodedDisposition(p) ==> Rewritten(env, p) == Failure(NoStartsWith)
    ensures IsEligible(p) && Resized(env.lib, env.decodePayload(p)).Failure? ==>
      Rewritten(env, p) == Failure(Resized(env.lib, env.decodePayload(p)).error)
    ensures IsEligible(p) && Resized(env.lib, env.decodePayload(p)).Success? && NewHeadersBreak(env, p) ==>
      Rewritten(env, p) == Failure(MultilineHeader)
  {
  }

  /** A rewritten part, taken with the name written into its header as its
      file name, passes the test again: the rewrite is not idempotent. */
  lemma RewrittenPartStaysEligible(env: Env, p: Part)
    requires IsEligible(p) && Rewritten(env, p).Success?
    ensures IsEligible(Rewritten(env, p).value)
  {
  }

  // ---- the multipart branch ----

  /** Child `k` of `cs` is the first whose rewrite raises, and it raises `e`. */
  predicate FirstRaisingChild(env: Env, cs: seq<Part>, k: nat, e: Exception) {
    && k < |cs|
    && (forall j :: 0 <= j < k ==> Rewritten(env, cs[j]).Success?)
    && Rewritten(env, cs[k]) == Failure(e)
  }

  /** The loop over the children succeeds exactly when every child does, and
      then keeps their number and order, entry i being child i rewritten. */
  lemma {:induction false} ChildrenPointwise(env: Env, cs: seq<Part>)
    ensures RewrittenChildren(env, cs).Success? <==>
      forall i :: 0 <= i < |cs| ==> Rewritten(env, cs[i]).Success?
    ensures RewrittenChildren(env, cs).Success? ==>
      var rs := RewrittenChildren(env, cs).value;
      |rs| == |cs| && forall i :: 0 <= i < |cs| ==> Rewritten(env, cs[i]) == Success(rs[i])
    decreases |cs|
  {
    if cs != [] {
      var n := |cs| - 1;
      var init, last := cs[..n], cs[n];
      ChildrenPointwise(env, init);
      assert forall i :: 0 <= i < n ==> init[i] == cs[i];
      if RewrittenChildren(env, init).Failure? {
        var i :| 0 <= i < n && Rewritten(env, init[i]).Failure?;
        assert Rewritten(env, cs[i]).Failure?;
      } else if Rewritten(env, last).Failure? {
        assert RewrittenChildren(env, cs).Failure?;
      } else {
        var rs := RewrittenChildren(env, init).value + [Rewritten(env, last).value];
        assert RewrittenChildren(env, cs) == Success(rs);
      }
    }
  }

  /** When the loop raises, it raises the exception of the first child that
      raises. */
  lemma {:induction false} ChildrenFirstRaising(env: Env, cs: seq<Part>)
    requires RewrittenChildren(env, cs).Failure?
    ensures exists k :: FirstRaisingChild(env, cs, k, RewrittenChildren(env, cs).error)
    decreases |cs|
  {
    var n := |cs| - 1;
    var init := cs[..n];
    assert forall i :: 0 <= i < n ==> init[i] == cs[i];
    if RewrittenChildren(env, init).Failure? {
      ChildrenFirstRaising(env, init);
      var k :| FirstRaisingChild(env, init, k, RewrittenChildren(env, init).error);
      assert FirstRaisingChild(env, cs, k, RewrittenChildren(env, cs).error);
    } else {
      ChildrenPointwise(env, init);
      assert FirstRaisingChild(env, cs, n, RewrittenChildren(env, cs).error);
    }
  }

  /** A multipart node keeps its content type and headers; only its list of
      children is replaced, by a list of the same length whose i-th entry is
      child i rewritten.  The node raises exactly when a child does, with the
      exception of the first child that raises. */
  lemma ContainerRewritten(env: Env, p: Part)
    requires p.Container?
    ensures Rewritten(env, p).Success? <==>
      forall i :: 0 <= i < |p.children| ==> Rewritten(env, p.children[i]).Success?
    ensures Rewritten(env, p).Success? ==>
      var q := Rewritten(env, p).value;
      && q.Container? && q.ctype == p.ctype && q.headers == p.headers
      && |q.children| == |p.children|
      && forall i :: 0 <= i < |p.children| ==> Rewritten(env, p.children[i]) == Success(q.children[i])
    ensures Rewritten(env, p).Failure? ==>
      exists k :: FirstRaisingChild(env, p.children, k, Rewritten(env, p).error)
  {
    ChildrenPointwise(env, p.children);
    if Rewritten(env, p).Failure? {
      ChildrenFirstRaising(env, p.children);
    }
  }
}
