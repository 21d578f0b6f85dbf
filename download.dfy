/**
  The decision `download` takes before it streams an archive: stop when
  the server answers 404, skip when the file in the cache is already as
  long as the server says the archive is, and otherwise ask for the bytes
  from the end of the partial file on, with a `Range` header
  `bytes={first}-{size}`. The `HEAD` and `GET` requests, the appending of
  the chunks and the progress bar are not modelled: the answer to `HEAD` and
  the size of the file already in the cache are inputs.
 */
module Download {
  import opened Wrappers
  import opened Text
  import opened Versions

  /** What `download` does next. */
  datatype Plan =
    | NotFound                               // logs an error and exits with status 1
    | Skip                                   // returns without a request
    | Fetch(first: nat, last: Option<nat>)   // a GET for the bytes from `first`, up to `last` when known

  /** `int(headers.get("Content-Length", -1))` */
  function FileSize(contentLength: Option<nat>): int
  {
    if contentLength.Some? then contentLength.value else -1
  }

  /** `os.path.getsize(dest)` when the file exists, else 0. */
  function FirstByte(existing: Option<nat>): nat
  {
    if existing.Some? then existing.value else 0
  }

  /** The plan as written, for the status and `Content-Length` of the `HEAD` answer. */
  function DownloadPlan(status: int, contentLength: Option<nat>, existing: Option<nat>): (r: Plan)
    ensures r == NotFound <==> status == 404
    ensures r.Fetch? ==> r.first == FirstByte(existing) && r.last == contentLength &&
                         r.last.Some? && r.first < r.last.value
  {
    if status == 404 then NotFound
    else
      var size := FileSize(contentLength);
      var first := FirstByte(existing);
      if first >= size then Skip else Fetch(first, Some(size as nat))
  }

  /** A download into an empty place asks for the whole archive. */
  lemma FreshDownload(status: int, size: nat)
    requires status != 404 && size > 0
    ensures DownloadPlan(status, Some(size), None) == Fetch(0, Some(size))
  {
  }

  /** A partial file is resumed where it stops; a complete one is not fetched again. */
  lemma ResumeOrSkip(status: int, size: nat, have: nat)
    requires status != 404
    ensures have < size ==> DownloadPlan(status, Some(size), Some(have)) == Fetch(have, Some(size))
    ensures have >= size ==> DownloadPlan(status, Some(size), Some(have)) == Skip
  {
  }

  /**
    As written, an answer without `Content-Length` makes the size -1, which
    every file size reaches, so nothing is ever downloaded, whether a file
    is there or not.
   */
  lemma MissingLengthSkips(status: int, existing: Option<nat>)
    requires status != 404
    ensures DownloadPlan(status, None, existing) == Skip
  {
  }

  /** The evidently intended plan: an unknown size asks for everything from the first missing byte. */
  function CorrectedPlan(status: int, contentLength: Option<nat>, existing: Option<nat>): (r: Plan)
    ensures r == NotFound <==> status == 404
    ensures r.Fetch? ==> r.first == FirstByte(existing) && r.last == contentLength
  {
    if status == 404 then NotFound
    else if contentLength.None? then Fetch(FirstByte(existing), None)
    else DownloadPlan(status, contentLength, existing)
  }

  /** Corrected, a missing size never skips, and a known size is handled as before. */
  lemma CorrectedPlanFetches(status: int, contentLength: Option<nat>, existing: Option<nat>)
    requires status != 404
    ensures contentLength.None? ==> CorrectedPlan(status, contentLength, existing) == Fetch(FirstByte(existing), None)
    ensures contentLength.Some? ==> CorrectedPlan(status, contentLength, existing) == DownloadPlan(status, contentLength, existing)
    ensures CorrectedPlan(status, contentLength, existing) == Skip <==>
            contentLength.Some? && FirstByte(existing) >= contentLength.value
  {
  }

  /** The `Range` header of a fetch: `bytes={first}-{last}`, or `bytes={first}-` for an unknown end. */
  function RangeHeader(first: nat, last: Option<nat>): string
  {
    "bytes=" + Decimal(first) + "-" + (if last.Some? then Decimal(last.value) else "")
  }

  /** The header tells the first byte and the end it was built from. */
  lemma RangeHeaderInjective(first: nat, last: Option<nat>, first': nat, last': Option<nat>)
    requires RangeHeader(first, last) == RangeHeader(first', last')
    ensures first == first' && last == last'
  {
    var tail := if last.Some? then Decimal(last.value) else "";
    var tail' := if last'.Some? then Decimal(last'.value) else "";
    var a := Decimal(first) + "-" + tail;
    var b := Decimal(first') + "-" + tail';
    assert RangeHeader(first, last)[6..] == a;
    assert RangeHeader(first', last')[6..] == b;
    DecimalChars(first, '-');
    DecimalChars(first', '-');
    assert a == Decimal(first) + ['-'] + tail;
    assert b == Decimal(first') + ['-'] + tail';
    CutAt(Decimal(first), tail, '-');
    CutAt(Decimal(first'), tail', '-');
    ValueOfDecimal(first);
    ValueOfDecimal(first');
    if last.Some? && last'.Some? {
      ValueOfDecimal(last.value);
      ValueOfDecimal(last'.value);
    }
  }
}
