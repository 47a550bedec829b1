/** The static extension/MIME table of `mime_info_get_table` and the data
    types its rows are made of. */
module MimeTable {

  /** A file extension as the table stores it: never empty and always starting
      with a literal '.'. The extension lookup drops the first character of
      every stored extension without looking at it; this constraint is what
      makes that drop the same as stripping the dot. */
  type DottedExtension = s: string | |s| > 0 && s[0] == '.' witness "."

  /** One row of the table: an extension and the MIME type it stands for. */
  datatype Entry = Entry(extension: DottedExtension, mime: string)

  /** The number of rows written out in the table. */
  const EntryCount: nat := 77

  /** Rows 0 to 19 (source lines 26-45). */
  const Block1: seq<Entry> := [
      Entry(".3g2", "video/3gpp2"),
      Entry(".3g2", "audio/3gpp2"),
      Entry(".3gp", "video/3gpp"),
      Entry(".3gp", "audio/3gpp"),
      Entry(".7z", "application/x-7z-compressed"),
      Entry(".aac", "audio/aac"),
      Entry(".abw", "application/x-abiword"),
      Entry(".arc", "application/x-freearc"),
      Entry(".avi", "video/x-msvideo"),
      Entry(".azw", "application/vnd.amazon.ebook"),
      Entry(".bin", "application/octet-stream"),
      Entry(".bmp", "image/bmp"),
      Entry(".bz", "application/x-bzip"),
      Entry(".bz2", "application/x-bzip2"),
      Entry(".csh", "application/x-csh"),
      Entry(".css", "text/css"),
      Entry(".csv", "text/csv"),
      Entry(".doc", "application/msword"),
      Entry(".docx", "application/vnd.openxmlformats-officedocument.wordprocessingml.document"),
      Entry(".eot", "application/vnd.ms-fontobject")
    ]

  /** Rows 20 to 39 (source lines 46-65). */
  const Block2: seq<Entry> := [
      Entry(".epub", "application/epub+zip"),
      Entry(".gif", "image/gif"),
      Entry(".htm", "text/html"),
      Entry(".html", "text/html"),
      Entry(".ico", "image/vnd.microsoft.icon"),
      Entry(".ics", "text/calendar"),
      Entry(".jar", "application/java-archive"),
      Entry(".jpeg", "image/jpeg"),
      Entry(".jpg", "image/jpeg"),
      Entry(".js", "text/javascript"),
      Entry(".json", "application/json"),
      Entry(".mid", "audio/midi"),
      Entry(".mid", "audio/x-midi"),
      Entry(".midi", "audio/midi"),
      Entry(".midi", "audio/x-midi"),
      Entry(".mjs", "text/javascript"),
      Entry(".mp3", "audio/mpeg"),
      Entry(".mp4", "video/mp4"),
      Entry(".mp4", "audio/mp4"),
      Entry(".mp4", "application/mp4")
    ]

  /** Rows 40 to 59 (source lines 66-85). */
  const Block3: seq<Entry> := [
      Entry(".mpeg", "video/mpeg"),
      Entry(".mpkg", "application/vnd.apple.installer+xml"),
      Entry(".odp", "application/vnd.oasis.opendocument.presentation"),
      Entry(".ods", "application/vnd.oasis.opendocument.spreadsheet"),
      Entry(".odt", "application/vnd.oasis.opendocument.text"),
      Entry(".oga", "audio/ogg"),
      Entry(".ogv", "video/ogg"),
      Entry(".ogx", "application/ogg"),
      Entry(".otf", "font/otf"),
      Entry(".pdf", "application/pdf"),
      Entry(".png", "image/png"),
      Entry(".ppt", "application/vnd.ms-powerpoint"),
      Entry(".pptx", "application/vnd.openxmlformats-officedocument.presentationml.presentation"),
      Entry(".rar", "application/x-rar-compressed"),
      Entry(".rtf", "application/rtf"),
      Entry(".sh", "application/x-sh"),
      Entry(".svg", "image/svg+xml"),
      Entry(".swf", "application/x-shockwave-flash"),
      Entry(".tar", "application/x-tar"),
      Entry(".tif", "image/tiff")
    ]

  /** Rows 60 to 76 (source lines 86-102). */
  const Block4: seq<Entry> := [
      Entry(".tiff", "image/tiff"),
      Entry(".ttf", "font/ttf"),
      Entry(".txt", "text/plain"),
      Entry(".vsd", "application/vnd.visio"),
      Entry(".wav", "audio/wav"),
      Entry(".weba", "audio/webm"),
      Entry(".webm", "video/webm"),
      Entry(".webp", "image/webp"),
      Entry(".woff", "font/woff"),
      Entry(".woff2", "font/woff2"),
      Entry(".xhtml", "application/xhtml+xml"),
      Entry(".xls", "application/vnd.ms-excel"),
      Entry(".xlsx", "application/vnd.openxmlformats-officedocument.spreadsheetml.sheet"),
      Entry(".xml", "application/xml"),
      Entry(".xml", "text/xml"),
      Entry(".xul", "application/vnd.mozilla.xul+xml"),
      Entry(".zip", "application/zip")
    ]

  /** The rows in declaration order, written as four consecutive blocks of
      the literal array. The order matters: several extensions appear on more
      than one row (.3g2, .3gp, .mid, .midi, .mp4, .xml) and several MIME types
      on more than one row (text/html, image/jpeg, text/javascript, audio/midi,
      audio/x-midi, image/tiff), and every lookup returns the first row that
      matches. */
  const Entries: seq<Entry> := Block1 + Block2 + Block3 + Block4

  /** The table has the 77 rows written out in the literal array. */
  lemma EntriesLength()
    ensures |Entries| == EntryCount
  {
  }

  /** Row `i` of the table is row `i - b` of the block that starts at row `b`. */
  lemma EntryAt(i: int)
    requires 0 <= i < |Entries|
    ensures i < 20 ==> Entries[i] == Block1[i]
    ensures 20 <= i < 40 ==> Entries[i] == Block2[i - 20]
    ensures 40 <= i < 60 ==> Entries[i] == Block3[i - 40]
    ensures 60 <= i ==> Entries[i] == Block4[i - 60]
  {
  }

  predicate IsLowerAlnum(c: char) {
    ('a' <= c <= 'z') || ('0' <= c <= '9')
  }

  predicate IsUpperAscii(c: char) {
    'A' <= c <= 'Z'
  }

  /** A stored extension is a dot followed by at least one lower-case ASCII
      letter or digit. */
  predicate WellFormedExtension(ext: DottedExtension) {
    && |ext| >= 2
    && forall k :: 1 <= k < |ext| ==> IsLowerAlnum(ext[k])
  }

  /** Rows `lo` to `hi - 1` of `rows` have well-formed extensions. */
  predicate WellFormedBetween(rows: seq<Entry>, lo: int, hi: int)
    requires 0 <= lo <= hi <= |rows|
  {
    forall i :: lo <= i < hi ==> WellFormedExtension(rows[i].extension)
  }

  /** Every row of `rows` has a well-formed extension. */
  predicate AllWellFormed(rows: seq<Entry>) {
    WellFormedBetween(rows, 0, |rows|)
  }

  lemma Block1WellFormed()
    ensures AllWellFormed(Block1)
  {
    assert WellFormedBetween(Block1, 0, 10);
    assert WellFormedBetween(Block1, 10, 20);
  }

  lemma Block2WellFormed()
    ensures AllWellFormed(Block2)
  {
    assert WellFormedBetween(Block2, 0, 10);
    assert WellFormedBetween(Block2, 10, 20);
  }

  lemma Block3WellFormed()
    ensures AllWellFormed(Block3)
  {
    assert WellFormedBetween(Block3, 0, 10);
    assert WellFormedBetween(Block3, 10, 20);
  }

  lemma Block4WellFormed()
    ensures AllWellFormed(Block4)
  {
    assert WellFormedBetween(Block4, 0, 10);
    assert WellFormedBetween(Block4, 10, 17);
  }

  /** Every row of the table has the well-formed shape. */
  lemma TableWellFormed()
    ensures AllWellFormed(Entries)
  {
    forall i | 0 <= i < |Entries|
      ensures WellFormedExtension(Entries[i].extension)
    {
      EntryAt(i);
      if i < 20 {
        Block1WellFormed();
        assert WellFormedExtension(Block1[i].extension);
      } else if i < 40 {
        Block2WellFormed();
        assert WellFormedExtension(Block2[i - 20].extension);
      } else if i < 60 {
        Block3WellFormed();
        assert WellFormedExtension(Block3[i - 40].extension);
      } else {
        Block4WellFormed();
        assert WellFormedExtension(Block4[i - 60].extension);
      }
    }
  }

  /** The table and its row count, as `mime_info_get_table` hands them out:
      the count is the number of literal rows, and every row has the
      well-formed shape. */
  function GetTable(): (r: (seq<Entry>, nat))
    ensures r.1 == |r.0| == EntryCount
    ensures AllWellFormed(r.0)
    ensures r.0 == Entries
  {
    EntriesLength();
    TableWellFormed();
    (Entries, |Entries|)
  }
}
