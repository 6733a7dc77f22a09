/**
 * The AMeDAS map URL of a satellite time, built with `DATE_FORMAT` by
 * `select_time_async`. Both GUIs (`Gui` in `src/jma/__main__.py` and in
 * `src/main.py`) define it the same way; their calls to it are commented out.
 */
module AmedasMap {
  import opened Wrappers
  import opened JmaDates

  const AMEDAS_MAP_PREFIX: string := "https://www.jma.go.jp/bosai/amedas/data/map/"

  /** The URL `select_time_async` requests for time `t`. */
  function AmedasMapUrl(t: DateTime): (url: string)
    requires Valid(t)
    ensures |url| >= |AMEDAS_MAP_PREFIX| + 5
    ensures url[..|AMEDAS_MAP_PREFIX|] == AMEDAS_MAP_PREFIX
    ensures url[|url| - 5..] == ".json"
    ensures IsDigits(url[|AMEDAS_MAP_PREFIX|..|url| - 5])
  {
    StrftimeDateFormat(t);
    var ts := Strftime(t, DATE_FORMAT).value;
    var url := AMEDAS_MAP_PREFIX + ts + ".json";
    assert url[|AMEDAS_MAP_PREFIX|..|url| - 5] == ts;
    url
  }

  /**
   * For a four-digit year the URL is the prefix, 14 timestamp characters
   * and `.json`, and `to_datetime` reads the timestamp back as `t`.
   */
  lemma AmedasTimestampRoundTrip(t: DateTime)
    requires Valid(t) && t.year >= 1000
    ensures var url := AmedasMapUrl(t);
      var n := |AMEDAS_MAP_PREFIX|;
      && |url| == n + 14 + 5
      && url[..n] == AMEDAS_MAP_PREFIX
      && url[n + 14..] == ".json"
      && IsDigits(url[n..n + 14])
      && ToDatetime(url[n..n + 14]) == Success(t)
  {
    FormatParseRoundTrip(t);
    var ts := Strftime(t, DATE_FORMAT).value;
    assert |ts| == 14;
    var url := AmedasMapUrl(t);
    var n := |AMEDAS_MAP_PREFIX|;
    assert url[n..n + 14] == ts;
  }
}
