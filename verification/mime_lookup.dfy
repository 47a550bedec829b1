/** The four queries over the table: `mime_info_find_entry_from_extension`,
    `mime_info_find_entry_from_mime` and the two wrappers that project a field
    of the row they find. A row is identified by its index in the table, which
    stands for the pointer `&entries[i]` the C functions return; NULL is
    `None`. The scans are stated over any sequence of rows `rows`; the four
    queries apply them to the one table `Entries`. */
module MimeLookup {
  import opened Wrappers
  import opened Scan
  import opened MimeTable

  /** The caller's key with at most one leading '.' removed: a key that starts
      with a dot loses that one dot, any other key is kept as it is. */
  function StripOneDot(key: string): (r: string)
    ensures |key| > 0 && key[0] == '.' ==> key == "." + r
    ensures !(|key| > 0 && key[0] == '.') ==> r == key
  {
    if |key| > 0 && key[0] == '.' then key[1..] else key
  }

  /** A stored extension with its first character dropped, whatever that
      character is. Because a stored extension always starts with '.', the
      result is the extension without its dot. */
  function DropFirst(ext: DottedExtension): (r: string)
    ensures ext == "." + r
  {
    ext[1..]
  }

  /** Row `e` answers the already-stripped extension key `k`: exact,
      case-sensitive equality with the stored extension minus its first
      character. */
  predicate ExtensionMatches(e: Entry, k: string) {
    DropFirst(e.extension) == k
  }

  /** Row `e` answers the MIME key `m`: exact, case-sensitive equality, with no
      stripping. */
  predicate MimeMatches(e: Entry, m: string) {
    e.mime == m
  }

  /** `i` is the first row of `rows` whose extension answers the caller's
      `key`. */
  predicate IsFirstExtensionRow(rows: seq<Entry>, i: int, key: string) {
    && 0 <= i < |rows|
    && ExtensionMatches(rows[i], StripOneDot(key))
    && forall j :: 0 <= j < i ==> !ExtensionMatches(rows[j], StripOneDot(key))
  }

  /** `i` is the first row of `rows` whose MIME type is `mime`. */
  predicate IsFirstMimeRow(rows: seq<Entry>, i: int, mime: string) {
    && 0 <= i < |rows|
    && MimeMatches(rows[i], mime)
    && forall j :: 0 <= j < i ==> !MimeMatches(rows[j], mime)
  }

  /** Some row of `rows` has an extension that answers the caller's `key`. */
  predicate HasExtension(rows: seq<Entry>, key: string) {
    exists i :: 0 <= i < |rows| && ExtensionMatches(rows[i], StripOneDot(key))
  }

  /** Some row of `rows` has the MIME type `mime`. */
  predicate HasMime(rows: seq<Entry>, mime: string) {
    exists i :: 0 <= i < |rows| && MimeMatches(rows[i], mime)
  }

  /** The extension scan over `rows`: strip at most one leading dot from the
      key, then return the first row whose extension minus its first character
      equals what is left, or `None` when no row does. */
  function FindExtensionIn(rows: seq<Entry>, key: string): (r: Option<nat>)
    ensures r.Some? ==> IsFirstExtensionRow(rows, r.value, key)
    ensures r.None? <==> !HasExtension(rows, key)
  {
    var k := StripOneDot(key);
    FirstIndex(rows, e => ExtensionMatches(e, k))
  }

  /** The MIME scan over `rows`: the first row whose MIME type is exactly
      `mime`, or `None` when no row has it. */
  function FindMimeIn(rows: seq<Entry>, mime: string): (r: Option<nat>)
    ensures r.Some? ==> IsFirstMimeRow(rows, r.value, mime)
    ensures r.None? <==> !HasMime(rows, mime)
  {
    FirstIndex(rows, e => MimeMatches(e, mime))
  }

  /** The first matching row is the one the extension scan returns, and it is
      the only row the scan can return. */
  lemma FindExtensionInIsFirstRow(rows: seq<Entry>, i: int, key: string)
    ensures FindExtensionIn(rows, key) == Some(i) <==> IsFirstExtensionRow(rows, i, key)
  {
    var k := StripOneDot(key);
    FirstIndexIsFirstMatch(rows, e => ExtensionMatches(e, k), i);
  }

  /** The first row with a MIME type is the one the MIME scan returns, and it
      is the only row the scan can return. */
  lemma FindMimeInIsFirstRow(rows: seq<Entry>, i: int, mime: string)
    ensures FindMimeIn(rows, mime) == Some(i) <==> IsFirstMimeRow(rows, i, mime)
  {
    FirstIndexIsFirstMatch(rows, e => MimeMatches(e, mime), i);
  }

  /** The first match in `a` is still the first match once more rows are
      appended after `a`. */
  lemma FirstExtensionRowPrefix(a: seq<Entry>, b: seq<Entry>, i: int, key: string)
    requires IsFirstExtensionRow(a, i, key)
    ensures IsFirstExtensionRow(a + b, i, key)
  {
    assert forall j :: 0 <= j <= i ==> (a + b)[j] == a[j];
  }

  /** When `a` has no match, the first match in `a + b` is the first match in
      `b`, moved past the rows of `a`. */
  lemma FirstExtensionRowSuffix(a: seq<Entry>, b: seq<Entry>, i: int, key: string)
    requires !HasExtension(a, key)
    requires IsFirstExtensionRow(b, i, key)
    ensures IsFirstExtensionRow(a + b, |a| + i, key)
  {
    assert forall j :: |a| <= j < |a| + |b| ==> (a + b)[j] == b[j - |a|];
  }

  /** Neither part has a match, so the concatenation has none. */
  lemma NoExtensionAppend(a: seq<Entry>, b: seq<Entry>, key: string)
    requires !HasExtension(a, key) && !HasExtension(b, key)
    ensures !HasExtension(a + b, key)
  {
    forall j | 0 <= j < |a + b|
      ensures !ExtensionMatches((a + b)[j], StripOneDot(key))
    {
      if j >= |a| {
        assert (a + b)[j] == b[j - |a|];
      }
    }
  }

  lemma FirstMimeRowPrefix(a: seq<Entry>, b: seq<Entry>, i: int, mime: string)
    requires IsFirstMimeRow(a, i, mime)
    ensures IsFirstMimeRow(a + b, i, mime)
  {
    assert forall j :: 0 <= j <= i ==> (a + b)[j] == a[j];
  }

  lemma FirstMimeRowSuffix(a: seq<Entry>, b: seq<Entry>, i: int, mime: string)
    requires !HasMime(a, mime)
    requires IsFirstMimeRow(b, i, mime)
    ensures IsFirstMimeRow(a + b, |a| + i, mime)
  {
    assert forall j :: |a| <= j < |a| + |b| ==> (a + b)[j] == b[j - |a|];
  }

  lemma NoMimeAppend(a: seq<Entry>, b: seq<Entry>, mime: string)
    requires !HasMime(a, mime) && !HasMime(b, mime)
    ensures !HasMime(a + b, mime)
  {
    forall j | 0 <= j < |a + b|
      ensures !MimeMatches((a + b)[j], mime)
    {
      if j >= |a| {
        assert (a + b)[j] == b[j - |a|];
      }
    }
  }

  /** The `for` loop of `mime_info_find_entry_from_extension` as written: strip
      one leading dot, walk the rows in order and return at the first match. */
  method ScanForExtension(rows: seq<Entry>, key: string) returns (r: Option<nat>)
    ensures r.Some? ==> IsFirstExtensionRow(rows, r.value, key)
    ensures r.None? <==> !HasExtension(rows, key)
  {
    var k := key;
    if |k| > 0 && k[0] == '.' {
      k := k[1..];
    }
    var i := 0;
    while i < |rows|
      invariant i <= |rows|
      invariant k == StripOneDot(key)
      invariant forall j :: 0 <= j < i ==> !ExtensionMatches(rows[j], k)
    {
      if rows[i].extension[1..] == k {
        return Some(i);
      }
      i := i + 1;
    }
    return None;
  }

  /** The `for` loop of `mime_info_find_entry_from_mime` as written. */
  method ScanForMime(rows: seq<Entry>, mime: string) returns (r: Option<nat>)
    ensures r.Some? ==> IsFirstMimeRow(rows, r.value, mime)
    ensures r.None? <==> !HasMime(rows, mime)
  {
    var i := 0;
    while i < |rows|
      invariant i <= |rows|
      invariant forall j :: 0 <= j < i ==> !MimeMatches(rows[j], mime)
    {
      if rows[i].mime == mime {
        return Some(i);
      }
      i := i + 1;
    }
    return None;
  }

  /** `mime_info_find_entry_from_extension`: the first row of the table whose
      extension answers `key`, or `None`. */
  function FindEntryFromExtension(key: string): (r: Option<nat>)
    ensures r.Some? ==> IsFirstExtensionRow(Entries, r.value, key)
    ensures r.None? <==> !HasExtension(Entries, key)
  {
    FindExtensionIn(Entries, key)
  }

  /** `mime_info_find_entry_from_mime`: the first row of the table whose MIME
      type is `mime`, or `None`. */
  function FindEntryFromMime(mime: string): (r: Option<nat>)
    ensures r.Some? ==> IsFirstMimeRow(Entries, r.value, mime)
    ensures r.None? <==> !HasMime(Entries, mime)
  {
    FindMimeIn(Entries, mime)
  }

  /** `mime_info_mime_from_extension`: the MIME type of the first row whose
      extension answers `key`, or `None`. */
  function MimeFromExtension(key: string): (r: Option<string>)
    ensures r.Some? <==> HasExtension(Entries, key)
    ensures r.Some? ==> exists i :: IsFirstExtensionRow(Entries, i, key) && Entries[i].mime == r.value
  {
    match FindEntryFromExtension(key)
    case Some(i) => Some(Entries[i].mime)
    case None => None
  }

  /** `mime_info_extension_from_mime`: the extension, leading dot included, of
      the first row whose MIME type is `mime`, or `None`. */
  function ExtensionFromMime(mime: string): (r: Option<string>)
    ensures r.Some? <==> HasMime(Entries, mime)
    ensures r.Some? ==> exists i :: IsFirstMimeRow(Entries, i, mime) && Entries[i].extension == r.value
    ensures r.Some? ==> |r.value| > 0 && r.value[0] == '.'
  {
    match FindEntryFromMime(mime)
    case Some(i) => Some(Entries[i].extension)
    case None => None
  }
}
