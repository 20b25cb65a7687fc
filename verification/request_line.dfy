/**
 * Parsing of the request line in `connection`: cut the line at the first
 * " HTTP/" and accept only a cut line that starts with "GET ".
 */
module RequestLine {
  import opened Wrappers
  import opened CStrings

  /** The text that marks the start of the protocol version. */
  const Marker: string := " HTTP/"

  /** The one method tag the server accepts, trailing space included. */
  const GetTag: string := "GET "

  /** The three ways the parse can end. */
  datatype Parsed =
    | NotHttp                 // " HTTP/" does not occur: "Not an HTTP request"
    | UnknownMethod           // cut line does not start with "GET ": "Unknown request type"
    | Get(target: string)     // the cut line after its four-character tag

  /** Parse a request line (as a C string). */
  function Parse(request: string): (p: Parsed)
    ensures p.NotHttp? <==> forall j :: !OccursAt(request, Marker, j)
    ensures !p.NotHttp? ==> exists k :: FirstOccurrence(request, Marker, k)
    ensures p.Get? <==>
      exists k :: FirstOccurrence(request, Marker, k) && StartsWith(request[..k], GetTag)
    ensures p.Get? ==>
      forall k :: FirstOccurrence(request, Marker, k) ==>
        |GetTag| <= k && request[..|GetTag|] == GetTag && p.target == request[|GetTag|..k]
  {
    match Find(request, Marker)
    case None => NotHttp
    case Some(k) =>
      var cut := request[..k];
      if StartsWith(cut, GetTag) then Get(cut[|GetTag|..]) else UnknownMethod
  }

  /** Once the first " HTTP/" is known, the parse depends only on the text before it. */
  lemma ParseAt(request: string, k: nat)
    requires FirstOccurrence(request, Marker, k)
    ensures Parse(request) ==
      if StartsWith(request[..k], GetTag) then Get(request[|GetTag|..k]) else UnknownMethod
  {
    FirstOccurrenceUnique(request, Marker, Find(request, Marker).value, k);
  }

  /** `<method> <rest>` starts with "GET " exactly when the method (which has no space) is GET. */
  lemma GetTagIff(verb: string, rest: string)
    requires ' ' !in verb
    ensures StartsWith(verb + " " + rest, GetTag) <==> verb == "GET"
  {
    var cut := verb + " " + rest;
    if |verb| < 3 {
      assert cut[|verb|] == ' ' != GetTag[|verb|];
    } else if |verb| > 3 {
      assert cut[3] == verb[3] != ' ';
    } else {
      assert cut[..3] == verb && cut[3] == ' ';
    }
  }

  /**
   * Nothing after the first " HTTP/" affects the outcome: replacing the
   * text that follows the marker by any other text gives the same parse.
   */
  lemma TailIgnored(request: string, k: nat, rest: string)
    requires FirstOccurrence(request, Marker, k)
    ensures Parse(request[..k] + Marker + rest) == Parse(request)
  {
    var other := request[..k] + Marker + rest;
    var n := k + |Marker|;
    assert request[..n] == request[..k] + Marker;
    assert other[..n] == request[..n];
    forall j | 0 <= j < k
      ensures !OccursAt(other, Marker, j)
    {
      OccursAtPrefix(request, other, Marker, n, j);
    }
    assert OccursAt(other, Marker, k);
    assert FirstOccurrence(other, Marker, k);
    var f := Find(other, Marker);
    var g := Find(request, Marker);
    FirstOccurrenceUnique(other, Marker, f.value, k);
    FirstOccurrenceUnique(request, Marker, g.value, k);
    assert other[..k] == request[..k];
  }

  /** A request whose cut line is shorter than "GET " is an unknown request type. */
  lemma ShortPrefixUnknown(request: string, k: nat)
    requires FirstOccurrence(request, Marker, k)
    requires k < |GetTag|
    ensures Parse(request) == UnknownMethod
  {
  }
}
