/** The data model: a parsed mail message as the rewriter sees it.

    A message is a tree.  A multipart node (`is_multipart()` holds) is a
    `Container` whose payload is its ordered list of sub-messages; every other
    node is a `Leaf` whose payload is the body as it is stored (still in its
    transfer encoding).  The values that the rewriter reads off a leaf through
    the library (`get_content_type()`, `get("Content-Disposition")` and
    `get_filename()`) are fields of the leaf; every other header is kept, in
    order, in `headers`.  `ctype` is the normalised type `get_content_type()`
    reports (lower-case `maintype/subtype`, no parameters).  For a part the
    rewriter builds, `filename` is the name it writes into the header.
    `get_filename()` may also raise; `filename` then records the exception. */
module Mime {
  import opened Wrappers

  newtype byte = x: int | 0 <= x < 256

  datatype Header = Header(name: string, value: string)

  /** What `get(name)` of a parsed (compat32) message returns for a header:
      its text, or, when the stored value holds raw 8-bit bytes that are not
      ASCII, an `email.header.Header` object wrapping them.  Such an object is
      truthy and has no string methods. */
  datatype HeaderValue = Text(text: string) | Undecoded8Bit(raw: seq<byte>)

  /** What `get_filename()` does on a part: no file name (`None`), a name, or
      an exception while it decodes the parameters (a `filename*` whose
      charset codec refuses the "replace" error mode, continuations that
      cannot be sorted, ...). */
  datatype FilenameLookup = Missing | Found(name: string) | Raises(error: Exception)

  datatype Part =
    | Container(ctype: string, headers: seq<Header>, children: seq<Part>)
    | Leaf(ctype: string, disposition: Option<HeaderValue>, filename: FilenameLookup,
           headers: seq<Header>, payload: seq<byte>)

  /** An exception raised by a library call (Pillow, piexif, ...). */
  datatype Exception = Exception(kind: string, message: string)
}
