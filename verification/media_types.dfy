/** The compiled-in extension table and its first-match, case-sensitive lookup. */
module MediaTypes {
  import opened Wrappers

  /** One row of the table: an extension and the media type it selects. */
  datatype Entry = Entry(ext: string, mediaType: string)

  /** The six real rows of `extensions`, in order (the NULL row only ends the C loop). */
  const Extensions: seq<Entry> := [
    Entry("gif", "image/gif"),
    Entry("txt", "text/plain"),
    Entry("htm", "text/html"),
    Entry("html", "text/html"),
    Entry("js", "text/javascript"),
    Entry("css", "text/css")
  ]

  /** `ext` equals no extension of `table`. */
  predicate Unlisted(table: seq<Entry>, ext: string) {
    forall i :: 0 <= i < |table| ==> table[i].ext != ext
  }

  /** Linear scan: the media type of the first row whose extension equals `ext` exactly. */
  function Lookup(table: seq<Entry>, ext: string): (r: Option<string>)
    ensures r.None? <==> Unlisted(table, ext)
    ensures r.Some? ==>
      exists i :: 0 <= i < |table| && table[i].ext == ext && r.value == table[i].mediaType
        && Unlisted(table[..i], ext)
    decreases |table|
  {
    if |table| == 0 then None
    else if table[0].ext == ext then Some(table[0].mediaType)
    else
      var r := Lookup(table[1..], ext);
      assert forall i :: 0 < i <= |table[1..]| ==> table[..i][1..] == table[1..][..i - 1];
      r
  }

  /** The media type the server's table gives `ext`. */
  function MediaTypeOf(ext: string): (m: Option<string>) {
    Lookup(Extensions, ext)
  }

  /** The lookup returns the row a match at `i`, with no match before it, designates. */
  lemma LookupAt(table: seq<Entry>, i: nat, ext: string)
    requires i < |table| && table[i].ext == ext && Unlisted(table[..i], ext)
    ensures Lookup(table, ext) == Some(table[i].mediaType)
  {
    var r := Lookup(table, ext);
    var i' :| 0 <= i' < |table| && table[i'].ext == ext && r.value == table[i'].mediaType
      && Unlisted(table[..i'], ext);
  }

  /** No two rows of `table` have the same extension. */
  predicate DistinctExtensions(table: seq<Entry>) {
    forall i, j :: 0 <= i < j < |table| ==> table[i].ext != table[j].ext
  }

  /** In a table without repeated extensions every row's extension selects that row's media type. */
  lemma {:induction false} DistinctLookup(table: seq<Entry>)
    requires DistinctExtensions(table)
    ensures forall i :: 0 <= i < |table| ==> Lookup(table, table[i].ext) == Some(table[i].mediaType)
  {
    forall i | 0 <= i < |table|
      ensures Lookup(table, table[i].ext) == Some(table[i].mediaType)
    {
      assert forall j :: 0 <= j < i ==> table[..i][j] == table[j];
      LookupAt(table, i, table[i].ext);
    }
  }

  /** Each listed extension selects its documented media type. */
  lemma KnownExtensions()
    ensures MediaTypeOf("gif") == Some("image/gif")
    ensures MediaTypeOf("txt") == Some("text/plain")
    ensures MediaTypeOf("htm") == Some("text/html")
    ensures MediaTypeOf("html") == Some("text/html")
    ensures MediaTypeOf("js") == Some("text/javascript")
    ensures MediaTypeOf("css") == Some("text/css")
  {
    assert Extensions[0].ext == "gif" && Extensions[1].ext == "txt" && Extensions[2].ext == "htm";
    assert Extensions[3].ext == "html" && Extensions[4].ext == "js" && Extensions[5].ext == "css";
    assert DistinctExtensions(Extensions);
    DistinctLookup(Extensions);
  }

  /** No listed extension contains a dot. */
  lemma ListedHasNoDot(ext: string)
    requires !Unlisted(Extensions, ext)
    ensures '.' !in ext
  {
    var i :| 0 <= i < |Extensions| && Extensions[i].ext == ext;
    assert Extensions[i].ext in ["gif", "txt", "htm", "html", "js", "css"];
  }

  /** Matching is exact and case-sensitive: upper case, a second dot or an empty extension match nothing. */
  lemma UnlistedExamples()
    ensures MediaTypeOf("GIF") == None
    ensures MediaTypeOf("Html") == None
    ensures MediaTypeOf("tar.gz") == None
    ensures MediaTypeOf("") == None
  {
  }
}
