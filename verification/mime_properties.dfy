/** What the lookups promise: how the extension key is normalised, which row
    wins when keys repeat, when the two directions undo each other, and the
    concrete answers the table gives for its duplicated keys. */
module MimeProperties {
  import opened Wrappers
  import opened MimeTable
  import opened MimeLookup

  // ---------------------------------------------------------------------
  // Key normalisation, for any table
  // ---------------------------------------------------------------------

  /** Stripping the caller's dot and dropping a stored extension's first
      character meet exactly when the two extensions are equal with the dot
      written out: row `e` answers the stored extension `ext` iff `e` stores
      `ext` itself. */
  lemma MatchesOwnExtension(e: Entry, ext: DottedExtension)
    ensures ExtensionMatches(e, StripOneDot(ext)) <==> e.extension == ext
  {
    assert StripOneDot(ext) == DropFirst(ext);
    if ExtensionMatches(e, StripOneDot(ext)) {
      calc {
        e.extension;
        "." + DropFirst(e.extension);
        "." + DropFirst(ext);
        ext;
      }
    }
  }

  /** A key written with one leading dot is looked up exactly like the same
      key written without it. */
  lemma LeadingDotInsensitive(rows: seq<Entry>, s: string)
    requires !(|s| > 0 && s[0] == '.')
    ensures FindExtensionIn(rows, "." + s) == FindExtensionIn(rows, s)
  {
    assert ("." + s)[1..] == s;
  }

  /** Only one dot is stripped: in a well-formed table no stored extension has
      a second dot, so a key starting with two dots is never found. */
  lemma DoubleDotNotFound(rows: seq<Entry>, s: string)
    requires AllWellFormed(rows)
    ensures FindExtensionIn(rows, ".." + s) == None
  {
    var k := StripOneDot(".." + s);
    assert k == "." + s by {
      assert (".." + s)[1..] == "." + s;
    }
    forall j | 0 <= j < |rows|
      ensures !ExtensionMatches(rows[j], k)
    {
      assert IsLowerAlnum(rows[j].extension[1]);
      assert DropFirst(rows[j].extension)[0] == rows[j].extension[1];
    }
  }

  /** In a well-formed table every stored extension has at least one character
      after its dot, so the empty key and the lone dot are never found. */
  lemma EmptyKeyNotFound(rows: seq<Entry>)
    requires AllWellFormed(rows)
    ensures FindExtensionIn(rows, "") == None
    ensures FindExtensionIn(rows, ".") == None
  {
    assert StripOneDot(".") == "";
    forall j | 0 <= j < |rows|
      ensures !ExtensionMatches(rows[j], "")
    {
      assert |DropFirst(rows[j].extension)| >= 1;
    }
  }

  /** No case folding: in a well-formed table every stored extension is lower
      case, so a key holding an upper-case ASCII letter after its optional dot
      is never found. */
  lemma UpperCaseKeyNotFound(rows: seq<Entry>, key: string, p: int)
    requires AllWellFormed(rows)
    requires 0 <= p < |StripOneDot(key)| && IsUpperAscii(StripOneDot(key)[p])
    ensures FindExtensionIn(rows, key) == None
  {
    var k := StripOneDot(key);
    forall j | 0 <= j < |rows|
      ensures !ExtensionMatches(rows[j], k)
    {
      if p + 1 < |rows[j].extension| {
        assert IsLowerAlnum(DropFirst(rows[j].extension)[p]);
      }
    }
  }

  // ---------------------------------------------------------------------
  // First match wins, for any table
  // ---------------------------------------------------------------------

  /** Looking up a row's own extension finds that row exactly when no earlier
      row repeats its extension; otherwise it finds the earliest row that
      does, which stores the same extension. */
  lemma OwnExtensionFound(rows: seq<Entry>, i: int)
    requires 0 <= i < |rows|
    ensures FindExtensionIn(rows, rows[i].extension).Some?
    ensures FindExtensionIn(rows, rows[i].extension).value <= i
    ensures rows[FindExtensionIn(rows, rows[i].extension).value].extension == rows[i].extension
    ensures FindExtensionIn(rows, rows[i].extension) == Some(i)
        <==> forall j :: 0 <= j < i ==> rows[j].extension != rows[i].extension
  {
    var ext := rows[i].extension;
    MatchesOwnExtension(rows[i], ext);
    var r := FindExtensionIn(rows, ext);
    MatchesOwnExtension(rows[r.value], ext);
    forall j | 0 <= j < i
      ensures ExtensionMatches(rows[j], StripOneDot(ext)) <==> rows[j].extension == ext
    {
      MatchesOwnExtension(rows[j], ext);
    }
    FindExtensionInIsFirstRow(rows, i, ext);
  }

  /** Looking up a row's own MIME type finds that row exactly when no earlier
      row repeats its MIME type; otherwise it finds the earliest row that
      does. */
  lemma OwnMimeFound(rows: seq<Entry>, i: int)
    requires 0 <= i < |rows|
    ensures FindMimeIn(rows, rows[i].mime).Some?
    ensures FindMimeIn(rows, rows[i].mime).value <= i
    ensures rows[FindMimeIn(rows, rows[i].mime).value].mime == rows[i].mime
    ensures FindMimeIn(rows, rows[i].mime) == Some(i)
        <==> forall j :: 0 <= j < i ==> rows[j].mime != rows[i].mime
  {
    FindMimeInIsFirstRow(rows, i, rows[i].mime);
  }

  // ---------------------------------------------------------------------
  // The four queries on the table
  // ---------------------------------------------------------------------

  /** The queries inherit leading-dot insensitivity from the scan. */
  lemma QueriesIgnoreOneLeadingDot(s: string)
    requires !(|s| > 0 && s[0] == '.')
    ensures FindEntryFromExtension("." + s) == FindEntryFromExtension(s)
    ensures MimeFromExtension("." + s) == MimeFromExtension(s)
  {
    LeadingDotInsensitive(Entries, s);
  }

  /** Keys the table never answers: the empty key, the lone dot, a key with two
      leading dots, and a key with an upper-case letter. */
  lemma QueriesRejectMalformedKeys(s: string)
    ensures MimeFromExtension("") == None
    ensures MimeFromExtension(".") == None
    ensures MimeFromExtension(".." + s) == None
    ensures MimeFromExtension("MP4") == None
    ensures MimeFromExtension(".MP4") == None
  {
    TableWellFormed();
    EmptyKeyNotFound(Entries);
    DoubleDotNotFound(Entries, s);
    UpperCaseKeyNotFound(Entries, "MP4", 0);
    UpperCaseKeyNotFound(Entries, ".MP4", 0);
  }

  /** Round trip for rows that are the first to carry both their extension and
      their MIME type: each direction leads back to the other field of the
      same row. */
  lemma RoundTripOfUnambiguousRow(i: int)
    requires 0 <= i < |Entries|
    requires forall j :: 0 <= j < i ==> Entries[j].extension != Entries[i].extension
    requires forall j :: 0 <= j < i ==> Entries[j].mime != Entries[i].mime
    ensures MimeFromExtension(Entries[i].extension) == Some(Entries[i].mime)
    ensures ExtensionFromMime(Entries[i].mime) == Some(Entries[i].extension)
    ensures ExtensionFromMime(MimeFromExtension(Entries[i].extension).value) == Some(Entries[i].extension)
  {
    OwnExtensionFound(Entries, i);
    OwnMimeFound(Entries, i);
  }

  /** Once row `i` is known to be the first row answering `key`, the lookup
      and its wrapper return that row and its MIME type. */
  lemma ExtensionLookupAnswers(key: string, i: int)
    requires IsFirstExtensionRow(Entries, i, key)
    ensures FindEntryFromExtension(key) == Some(i)
    ensures MimeFromExtension(key) == Some(Entries[i].mime)
  {
    FindExtensionInIsFirstRow(Entries, i, key);
  }

  /** Once row `i` is known to be the first row with `mime`, the lookup and
      its wrapper return that row and its extension, dot included. */
  lemma MimeLookupAnswers(mime: string, i: int)
    requires IsFirstMimeRow(Entries, i, mime)
    ensures FindEntryFromMime(mime) == Some(i)
    ensures ExtensionFromMime(mime) == Some(Entries[i].extension)
  {
    FindMimeInIsFirstRow(Entries, i, mime);
  }

  // ---------------------------------------------------------------------
  // Locating a key block by block
  // ---------------------------------------------------------------------

  /** A key whose first row is row `i` of a block, and which no earlier
      block carries, first appears in the table at that block's start plus
      `i`. */
  lemma ExtensionFirstInBlock2(key: string, i: int)
    requires !HasExtension(Block1, key)
    requires IsFirstExtensionRow(Block2, i, key)
    ensures IsFirstExtensionRow(Entries, 20 + i, key)
  {
    FirstExtensionRowSuffix(Block1, Block2, i, key);
    FirstExtensionRowPrefix(Block1 + Block2, Block3, 20 + i, key);
    FirstExtensionRowPrefix(Block1 + Block2 + Block3, Block4, 20 + i, key);
  }

  lemma ExtensionFirstInBlock3(key: string, i: int)
    requires !HasExtension(Block1, key) && !HasExtension(Block2, key)
    requires IsFirstExtensionRow(Block3, i, key)
    ensures IsFirstExtensionRow(Entries, 40 + i, key)
  {
    NoExtensionAppend(Block1, Block2, key);
    FirstExtensionRowSuffix(Block1 + Block2, Block3, i, key);
    FirstExtensionRowPrefix(Block1 + Block2 + Block3, Block4, 40 + i, key);
  }

  lemma ExtensionFirstInBlock4(key: string, i: int)
    requires !HasExtension(Block1, key) && !HasExtension(Block2, key) && !HasExtension(Block3, key)
    requires IsFirstExtensionRow(Block4, i, key)
    ensures IsFirstExtensionRow(Entries, 60 + i, key)
  {
    NoExtensionAppend(Block1, Block2, key);
    NoExtensionAppend(Block1 + Block2, Block3, key);
    FirstExtensionRowSuffix(Block1 + Block2 + Block3, Block4, i, key);
  }

  /** The same for a MIME type. */
  lemma MimeFirstInBlock2(mime: string, i: int)
    requires !HasMime(Block1, mime)
    requires IsFirstMimeRow(Block2, i, mime)
    ensures IsFirstMimeRow(Entries, 20 + i, mime)
  {
    FirstMimeRowSuffix(Block1, Block2, i, mime);
    FirstMimeRowPrefix(Block1 + Block2, Block3, 20 + i, mime);
    FirstMimeRowPrefix(Block1 + Block2 + Block3, Block4, 20 + i, mime);
  }

  lemma MimeFirstInBlock3(mime: string, i: int)
    requires !HasMime(Block1, mime) && !HasMime(Block2, mime)
    requires IsFirstMimeRow(Block3, i, mime)
    ensures IsFirstMimeRow(Entries, 40 + i, mime)
  {
    NoMimeAppend(Block1, Block2, mime);
    FirstMimeRowSuffix(Block1 + Block2, Block3, i, mime);
    FirstMimeRowPrefix(Block1 + Block2 + Block3, Block4, 40 + i, mime);
  }

  lemma MimeFirstInBlock4(mime: string, i: int)
    requires !HasMime(Block1, mime) && !HasMime(Block2, mime) && !HasMime(Block3, mime)
    requires IsFirstMimeRow(Block4, i, mime)
    ensures IsFirstMimeRow(Entries, 60 + i, mime)
  {
    NoMimeAppend(Block1, Block2, mime);
    NoMimeAppend(Block1 + Block2, Block3, mime);
    FirstMimeRowSuffix(Block1 + Block2 + Block3, Block4, i, mime);
  }

  /** A key no block carries is carried by no row of the table. */
  lemma ExtensionInNoBlock(key: string)
    requires !HasExtension(Block1, key) && !HasExtension(Block2, key)
    requires !HasExtension(Block3, key) && !HasExtension(Block4, key)
    ensures !HasExtension(Entries, key)
  {
    NoExtensionAppend(Block1, Block2, key);
    NoExtensionAppend(Block1 + Block2, Block3, key);
    NoExtensionAppend(Block1 + Block2 + Block3, Block4, key);
  }

  /** A MIME type no block carries is carried by no row of the table. */
  lemma MimeInNoBlock(mime: string)
    requires !HasMime(Block1, mime) && !HasMime(Block2, mime)
    requires !HasMime(Block3, mime) && !HasMime(Block4, mime)
    ensures !HasMime(Entries, mime)
  {
    NoMimeAppend(Block1, Block2, mime);
    NoMimeAppend(Block1 + Block2, Block3, mime);
    NoMimeAppend(Block1 + Block2 + Block3, Block4, mime);
  }

  // Where the keys used below first appear. Each fact about the literal
  // rows is checked against one or two blocks at a time.

  lemma Mp4InBlocks()
    ensures !HasExtension(Block1, ".mp4")
    ensures IsFirstExtensionRow(Block2, 17, ".mp4")
  {
  }

  lemma Mp4Row()
    ensures IsFirstExtensionRow(Entries, 37, ".mp4")
    ensures Entries[37].mime == "video/mp4"
  {
    Mp4InBlocks();
    ExtensionFirstInBlock2(".mp4", 17);
    EntryAt(37);
  }

  lemma HtmlInBlocks()
    ensures !HasExtension(Block1, ".html")
    ensures IsFirstExtensionRow(Block2, 3, ".html")
  {
  }

  lemma HtmlRow()
    ensures IsFirstExtensionRow(Entries, 23, ".html")
    ensures Entries[23].mime == "text/html"
  {
    HtmlInBlocks();
    ExtensionFirstInBlock2(".html", 3);
    EntryAt(23);
  }

  lemma PdfInBlocks1()
    ensures !HasExtension(Block1, ".pdf")
    ensures !HasExtension(Block2, ".pdf")
  {
  }

  lemma PdfInBlocks2()
    ensures IsFirstExtensionRow(Block3, 9, ".pdf")
  {
  }

  lemma PdfRow()
    ensures IsFirstExtensionRow(Entries, 49, ".pdf")
    ensures Entries[49].mime == "application/pdf"
  {
    PdfInBlocks1();
    PdfInBlocks2();
    ExtensionFirstInBlock3(".pdf", 9);
    EntryAt(49);
  }

  lemma XmlInBlocks1()
    ensures !HasExtension(Block1, "xml")
    ensures !HasExtension(Block2, "xml")
  {
  }

  lemma XmlInBlocks2()
    ensures !HasExtension(Block3, "xml")
    ensures IsFirstExtensionRow(Block4, 13, "xml")
  {
  }

  lemma XmlRow()
    ensures IsFirstExtensionRow(Entries, 73, "xml")
    ensures Entries[73].mime == "application/xml"
  {
    XmlInBlocks1();
    XmlInBlocks2();
    ExtensionFirstInBlock4("xml", 13);
    EntryAt(73);
  }

  lemma TextHtmlInBlocks()
    ensures !HasMime(Block1, "text/html")
    ensures IsFirstMimeRow(Block2, 2, "text/html")
  {
  }

  lemma TextHtmlRow()
    ensures IsFirstMimeRow(Entries, 22, "text/html")
    ensures Entries[22].extension == ".htm"
  {
    TextHtmlInBlocks();
    MimeFirstInBlock2("text/html", 2);
    EntryAt(22);
  }

  lemma ApplicationPdfInBlocks1()
    ensures !HasMime(Block1, "application/pdf")
    ensures !HasMime(Block2, "application/pdf")
  {
  }

  lemma ApplicationPdfInBlocks2()
    ensures IsFirstMimeRow(Block3, 9, "application/pdf")
  {
  }

  lemma ApplicationPdfRow()
    ensures IsFirstMimeRow(Entries, 49, "application/pdf")
    ensures Entries[49].extension == ".pdf"
  {
    ApplicationPdfInBlocks1();
    ApplicationPdfInBlocks2();
    MimeFirstInBlock3("application/pdf", 9);
    EntryAt(49);
  }

  lemma TextXmlInBlocks1()
    ensures !HasMime(Block1, "text/xml")
    ensures !HasMime(Block2, "text/xml")
  {
  }

  lemma TextXmlInBlocks2()
    ensures !HasMime(Block3, "text/xml")
    ensures IsFirstMimeRow(Block4, 14, "text/xml")
  {
  }

  lemma TextXmlRow()
    ensures IsFirstMimeRow(Entries, 74, "text/xml")
    ensures Entries[74].extension == ".xml"
  {
    TextXmlInBlocks1();
    TextXmlInBlocks2();
    MimeFirstInBlock4("text/xml", 14);
    EntryAt(74);
  }

  lemma UnknownExtensionInBlock1()
    ensures !HasExtension(Block1, "doesnotexist")
  {
  }

  lemma UnknownExtensionInBlock2()
    ensures !HasExtension(Block2, "doesnotexist")
  {
  }

  lemma UnknownExtensionInBlock3()
    ensures !HasExtension(Block3, "doesnotexist")
  {
  }

  lemma UnknownExtensionInBlock4()
    ensures !HasExtension(Block4, "doesnotexist")
  {
  }

  lemma UnknownMimeInBlocks1()
    ensures !HasMime(Block1, "application/doesnotexist")
    ensures !HasMime(Block2, "application/doesnotexist")
  {
  }

  lemma UnknownMimeInBlocks2()
    ensures !HasMime(Block3, "application/doesnotexist")
    ensures !HasMime(Block4, "application/doesnotexist")
  {
  }

  lemma UpperCaseMimeInBlocks1()
    ensures !HasMime(Block1, "TEXT/HTML")
    ensures !HasMime(Block2, "TEXT/HTML")
  {
  }

  lemma UpperCaseMimeInBlocks2()
    ensures !HasMime(Block3, "TEXT/HTML")
    ensures !HasMime(Block4, "TEXT/HTML")
  {
  }

  /** .mp4 is on three rows; the first, video/mp4, wins, with or without the
      dot. */
  lemma Mp4TieBreak()
    ensures FindEntryFromExtension(".mp4") == Some(37)
    ensures MimeFromExtension(".mp4") == Some("video/mp4")
    ensures MimeFromExtension("mp4") == Some("video/mp4")
  {
    Mp4Row();
    ExtensionLookupAnswers(".mp4", 37);
    QueriesIgnoreOneLeadingDot("mp4");
  }

  /** .xml is on two rows and application/xml, the first, wins; yet text/xml
      maps back to .xml. The two directions are not inverse. */
  lemma XmlDirectionsDisagree()
    ensures MimeFromExtension("xml") == Some("application/xml")
    ensures MimeFromExtension(".xml") == Some("application/xml")
    ensures ExtensionFromMime("text/xml") == Some(".xml")
  {
    XmlRow();
    TextXmlRow();
    ExtensionLookupAnswers("xml", 73);
    QueriesIgnoreOneLeadingDot("xml");
    MimeLookupAnswers("text/xml", 74);
  }

  /** text/html is on two rows and .htm, the first, wins: going from .html to
      its MIME type and back lands on .htm. */
  lemma HtmlDirectionsDisagree()
    ensures MimeFromExtension(".html") == Some("text/html")
    ensures ExtensionFromMime("text/html") == Some(".htm")
  {
    HtmlRow();
    TextHtmlRow();
    ExtensionLookupAnswers(".html", 23);
    MimeLookupAnswers("text/html", 22);
  }

  /** .pdf and application/pdf are each on one row only, so the two
      directions undo each other. */
  lemma PdfRoundTrip()
    ensures MimeFromExtension(".pdf") == Some("application/pdf")
    ensures ExtensionFromMime("application/pdf") == Some(".pdf")
  {
    PdfRow();
    ApplicationPdfRow();
    ExtensionLookupAnswers(".pdf", 49);
    MimeLookupAnswers("application/pdf", 49);
  }

  /** Keys no row carries are reported as not found; MIME types are not case
      folded either. */
  lemma UnknownKeysNotFound()
    ensures FindEntryFromExtension("doesnotexist") == None
    ensures FindEntryFromMime("application/doesnotexist") == None
    ensures FindEntryFromMime("TEXT/HTML") == None
  {
    UnknownExtensionInBlock1();
    UnknownExtensionInBlock2();
    UnknownExtensionInBlock3();
    UnknownExtensionInBlock4();
    ExtensionInNoBlock("doesnotexist");
    UnknownMimeInBlocks1();
    UnknownMimeInBlocks2();
    MimeInNoBlock("application/doesnotexist");
    UpperCaseMimeInBlocks1();
    UpperCaseMimeInBlocks2();
    MimeInNoBlock("TEXT/HTML");
  }
}
