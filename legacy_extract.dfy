/**
 * The two older extractors, extractTel.js and extractTelFromVcf.js: read a
 * file, normalise its separators and hand the callback every run of nine
 * digits together with the word characters after it (`null` when there is
 * none). The read is a parameter: `read` is what the reader's callback
 * receives, the file's text or its error. The calls made to `callback` are
 * returned in order.
 */
module LegacyExtract {
  import opened Wrappers
  import opened JsText
  import opened RegexScan

  /** A call of `callback`: with an error, or with `null` and the matches (`None` for `null`). */
  datatype Callback = Errored(error: string) | Delivered(matches: Option<seq<string>>)

  const PathMessage: string := "Please provide a path"

  // `/([0-9]{9})\w*/g`, or `/(\+?[0-9]{9})\w*/g` when `countryPrefix` is truthy
  function LegacyPattern(countryPrefix: bool): Pattern {
    if countryPrefix then LegacyPlus else Legacy
  }

  /**
   * `data.replace(/-|\s/g, ' ').match(re)`: the matches in text order, or
   * `null` (`None`) when there are none, never an empty list.
   */
  function LegacyMatches(data: string, countryPrefix: bool): (r: Option<seq<string>>)
    ensures r.None? <==> forall j :: 0 <= j < |data| ==> MatchAt(LegacyPattern(countryPrefix), Normalize(data), j).None?
    ensures r.Some? ==> r.value != [] && r.value == Matches(LegacyPattern(countryPrefix), Normalize(data))
  {
    var ms := Matches(LegacyPattern(countryPrefix), Normalize(data));
    NoMatchNoMatches(LegacyPattern(countryPrefix), Normalize(data));
    assert |Normalize(data)| == |data|;
    if ms == [] then None else Some(ms)
  }

  /** The reader's callback (the same in both files): pass the error on, or match and deliver. */
  function Settle(read: Result<string, string>, countryPrefix: bool): (c: Callback)
    ensures c.Errored? <==> read.Failure?
    ensures read.Failure? ==> c.error == read.error
    ensures read.Success? ==> c.matches == LegacyMatches(read.value, countryPrefix)
  {
    match read
    case Failure(err) => Errored(err)
    case Success(data) => Delivered(LegacyMatches(data, countryPrefix))
  }

  /**
   * `extractTel(path, callback, {countryPrefix})` of extractTel.js. A falsy
   * path reports the missing path but does not return, so the read is still
   * attempted and its outcome reported as well.
   */
  function ExtractTel(path: Option<string>, read: Result<string, string>, countryPrefix: bool): (calls: seq<Callback>)
    ensures |calls| == if IsFalsy(path) then 2 else 1
    ensures IsFalsy(path) ==> calls[0] == Errored(PathMessage)
    ensures calls[|calls| - 1].Errored? <==> read.Failure?
    ensures read.Failure? ==> calls[|calls| - 1].error == read.error
    ensures read.Success? ==> calls[|calls| - 1].matches == LegacyMatches(read.value, countryPrefix)
  {
    (if IsFalsy(path) then [Errored(PathMessage)] else []) + [Settle(read, countryPrefix)]
  }

  /**
   * `extractTel(path, {countryPrefix}, callback)` of extractTelFromVcf.js:
   * the same scan, with no check of the path, so exactly one call.
   */
  function ExtractTelFromVcf(path: Option<string>, read: Result<string, string>, countryPrefix: bool): (calls: seq<Callback>)
    ensures |calls| == 1
    ensures calls[0].Errored? <==> read.Failure?
    ensures read.Failure? ==> calls[0].error == read.error
    ensures read.Success? ==> calls[0].matches == LegacyMatches(read.value, countryPrefix)
  {
    [Settle(read, countryPrefix)]
  }

  /** With a truthy path the two extractors make the same single call. */
  lemma SameCallWithPath(path: string, read: Result<string, string>, countryPrefix: bool)
    requires path != ""
    ensures ExtractTel(Some(path), read, countryPrefix) == ExtractTelFromVcf(Some(path), read, countryPrefix)
  {
  }

  /** A falsy path: the callback first gets the path message, then the read's outcome too. */
  lemma MissingPathTwoCalls(path: Option<string>, read: Result<string, string>, countryPrefix: bool)
    requires IsFalsy(path)
    ensures ExtractTel(path, read, countryPrefix) == [Errored(PathMessage)] + ExtractTelFromVcf(path, read, countryPrefix)
  {
  }

  /**
   * Every delivered match starts with nine digits (after a `+`, which only
   * `countryPrefix` admits) and goes on over word characters only.
   */
  lemma LegacyShape(data: string, countryPrefix: bool)
    ensures var r := LegacyMatches(data, countryPrefix);
      r.Some? ==> forall k :: 0 <= k < |r.value| ==>
        var m := r.value[k];
        && (m[0] == '+' ==> countryPrefix && |m| >= 10 && AllDigits(m[1..10]) && AllWord(m[10..]))
        && (m[0] != '+' ==> |m| >= 9 && AllDigits(m[..9]) && AllWord(m[9..]))
  {
    var r := LegacyMatches(data, countryPrefix);
    if r.Some? {
      var p := LegacyPattern(countryPrefix);
      MatchesShape(p, Normalize(data));
      forall k | 0 <= k < |r.value| && !countryPrefix
        ensures r.value[k][0] != '+'
      {
        assert IsDigit(r.value[k][..9][0]);
      }
    }
  }

  /**
   * A match is never followed by a word character, and with `countryPrefix`
   * a `+` right before the digits is always part of the match.
   */
  lemma LegacyBoundaries(data: string, countryPrefix: bool)
    ensures var spans := Scan(LegacyPattern(countryPrefix), Normalize(data), 0);
      forall k :: 0 <= k < |spans| ==>
        && !WordAt(Normalize(data), spans[k].end)
        && (countryPrefix && spans[k].start > 0 && Normalize(data)[spans[k].start] != '+' ==>
              Normalize(data)[spans[k].start - 1] != '+')
  {
    var t := Normalize(data);
    var p := LegacyPattern(countryPrefix);
    MatchesShape(p, t);
    if countryPrefix {
      LegacyPlusTakesPlus(t);
    }
  }
}
