/** load_data without the HTTP request: cut the table text out of the
    service's response, hand it to the CSV reader, and replace the sentinel. */
module Payload {
  import opened Wrappers
  import opened Faults
  import opened Text
  import opened Tables

  /** The line that ends the header block of the service's CSV response. */
  const Marker: string := "-END HEADER-"

  /** data.split('-END HEADER-')[1].strip(): the text between the first
      marker and the next one (or the end), without surrounding whitespace.
      Without a marker there is no part 1 and the script raises. */
  function ExtractBody(text: string): (r: Result<string, Fault>)
    ensures r.Err? <==> !Contains(text, Marker)
    ensures r.Err? ==> r.error == MissingMarker
    ensures r.Ok? ==> IsTrimmed(r.value)
  {
    var parts := Split(text, Marker);
    if |parts| < 2 then Err(MissingMarker) else Ok(Strip(parts[1]))
  }

  /** text[i + |Marker|..j] is the segment after the first marker: i is the
      first occurrence, j the next occurrence after it, or the end. */
  predicate BodySpan(text: string, i: int, j: int) {
    && OccursAt(text, i, Marker)
    && (forall k :: 0 <= k < i ==> !OccursAt(text, k, Marker))
    && i + |Marker| <= j <= |text|
    && (forall k :: i + |Marker| <= k < j ==> !OccursAt(text, k, Marker))
    && (j == |text| || OccursAt(text, j, Marker))
  }

  /** Occurrences of the marker in the text after the first marker are the
      occurrences in the whole text, shifted. */
  lemma OccursAfterFirst(text: string, i: int)
    requires OccursAt(text, i, Marker)
    ensures forall k :: i + |Marker| <= k ==>
      (OccursAt(text, k, Marker) <==> OccursAt(text[i + |Marker|..], k - i - |Marker|, Marker))
  {
    forall k | i + |Marker| <= k
      ensures OccursAt(text, k, Marker) <==> OccursAt(text[i + |Marker|..], k - i - |Marker|, Marker)
    {
      OccursInSuffix(text, i + |Marker|, k - i - |Marker|, Marker);
    }
  }

  /** The first part of the text after the first marker ends at j. */
  lemma FirstPartAfterMarker(text: string, i: int, j: int)
    requires BodySpan(text, i, j)
    ensures Split(text[i + |Marker|..], Marker)[0] == text[i + |Marker|..j]
  {
    var start := i + |Marker|;
    var rest := text[start..];
    OccursAfterFirst(text, i);
    if j == |text| {
      forall k ensures !OccursAt(rest, k, Marker) {
        if 0 <= k {
          assert OccursAt(rest, k, Marker) <==> OccursAt(text, k + start, Marker);
        }
      }
      SplitWithout(rest, Marker);
    } else {
      forall k | 0 <= k < j - start ensures !OccursAt(rest, k, Marker) {
        assert OccursAt(rest, k, Marker) <==> OccursAt(text, k + start, Marker);
      }
      assert OccursAt(text, j, Marker);
      SplitAtFirst(rest, Marker, j - start);
      assert rest[..j - start] == text[start..j];
    }
  }

  /** The extracted body is exactly the stripped segment after the first
      marker, up to a second marker or the end of the response. */
  lemma ExtractBodyIsSpan(text: string, i: int, j: int)
    requires BodySpan(text, i, j)
    ensures ExtractBody(text) == Ok(Strip(text[i + |Marker|..j]))
  {
    SplitAtFirst(text, Marker, i);
    FirstPartAfterMarker(text, i, j);
  }

  /** load_data after the request. The CSV reader is a parameter: None
      where pd.read_csv raises on the body. An empty body always raises
      (pandas' EmptyDataError), whatever the reader. Every cell of the
      table read is kept, except that the sentinel becomes missing. */
  function LoadData(text: string, readCsv: string -> Option<Table>): (r: Result<Table, Fault>)
    ensures !Contains(text, Marker) ==> r == Err(MissingMarker)
    ensures ExtractBody(text) == Ok("") ==> r == Err(UnreadableCsv)
    ensures Contains(text, Marker) ==>
      var body := ExtractBody(text).value;
      && (r.Err? <==> body == "" || readCsv(body).None?)
      && (r.Err? ==> r.error == UnreadableCsv)
      && (r.Ok? ==>
            var t := readCsv(body).value;
            && r.value.columns == t.columns
            && |r.value.rows| == |t.rows|
            && forall i, k :: 0 <= i < |t.rows| && 0 <= k < |t.rows[i]| ==>
                 r.value.rows[i][k] == if IsSentinel(t.rows[i][k]) then Missing else t.rows[i][k])
    ensures r.Ok? ==> forall i, k :: 0 <= i < |r.value.rows| && 0 <= k < |r.value.rows[i]| ==>
      !IsSentinel(r.value.rows[i][k])
  {
    match ExtractBody(text)
    case Err(e) => Err(e)
    case Ok(body) =>
      if body == "" then Err(UnreadableCsv)
      else match readCsv(body)
        case None => Err(UnreadableCsv)
        case Some(t) => Ok(Scrub(t))
  }
}
