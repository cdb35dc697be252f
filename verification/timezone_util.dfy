/** The front end's timezone helpers: the guess of a zone name from the
    browser's `getTimezoneOffset()` (minutes to add to local time to reach
    UTC, so positive west of Greenwich) and the dropdown's list of common
    zones. */
module TimezoneUtil {
  import opened Wrappers
  import opened Text
  import opened Seqs

  /** A lookup table in its literal order. */
  type Table = seq<(string, string)>

  /** The key `offsetToTimezone` builds: `-` for a positive offset and `+`
      otherwise, then the hours. An offset that is not a whole number of
      hours renders with a fraction, which no key of the table has. */
  function OffsetKey(offset: int): (r: Option<string>)
    ensures r.None? <==> offset % 60 != 0
    ensures r.Some? ==> |r.value| >= 2 && (r.value[0] == '-' <==> offset > 0) && (r.value[0] == '+' <==> offset <= 0)
  {
    var minutes := if offset < 0 then -offset else offset;
    if minutes % 60 != 0 then None
    else Some((if offset > 0 then "-" else "+") + NatToString(minutes / 60))
  }

  /** Reading a key back: the hours east of UTC it names. */
  function KeyHoursEast(key: string): int
  {
    if |key| == 0 then 0
    else if key[0] == '-' then -(ParseDigits(key[1..]) as int)
    else ParseDigits(key[1..])
  }

  /** The key records the offset: it names `-offset / 60` hours east. */
  lemma OffsetKeyRoundTrip(offset: int)
    requires OffsetKey(offset).Some?
    ensures KeyHoursEast(OffsetKey(offset).value) * 60 == -offset
  {
    var minutes := if offset < 0 then -offset else offset;
    var key := OffsetKey(offset).value;
    assert key[1..] == NatToString(minutes / 60);
    NatToStringRoundTrip(minutes / 60);
  }

  /** `timezoneMap[key] || 'UTC'`: the first entry with the key, or `UTC`. */
  function Lookup(table: Table, key: Option<string>): (r: string)
    ensures key.None? ==> r == "UTC"
    ensures (key.None? || forall i :: 0 <= i < |table| ==> table[i].0 != key.value) ==> r == "UTC"
    ensures r == "UTC" || exists i :: 0 <= i < |table| && table[i].0 == key.value && table[i].1 == r
    decreases |table|
  {
    if key.None? || |table| == 0 then "UTC"
    else if table[0].0 == key.value then (if table[0].1 == "" then "UTC" else table[0].1)
    else
      var r := Lookup(table[1..], key);
      assert forall i :: 0 <= i < |table| - 1 ==> table[1..][i] == table[i + 1];
      r
  }

  /** The table as written. */
  function WrittenTable(): Table
  {
    [("0", "UTC"), ("+1", "Europe/London"), ("+2", "Europe/Berlin"),
     ("+5", "America/New_York"), ("+6", "America/Chicago"), ("+8", "America/Los_Angeles"),
     ("-9", "Asia/Tokyo"), ("-8", "Asia/Shanghai")]
  }

  /** `offsetToTimezone` as written. */
  function OffsetToTimezoneAsWritten(offset: int): (r: string)
    ensures r == "UTC" || exists i :: 0 <= i < |WrittenTable()| && WrittenTable()[i].1 == r
  {
    Lookup(WrittenTable(), OffsetKey(offset))
  }

  /** The table with the keys in the sign convention the key is built in
      (hours east of UTC): the American zones west, the Asian ones east. */
  function CorrectedTable(): Table
  {
    [("0", "UTC"), ("+1", "Europe/London"), ("+2", "Europe/Berlin"),
     ("-5", "America/New_York"), ("-6", "America/Chicago"), ("-8", "America/Los_Angeles"),
     ("+9", "Asia/Tokyo"), ("+8", "Asia/Shanghai")]
  }

  /** `offsetToTimezone` with the corrected table. */
  function OffsetToTimezone(offset: int): (r: string)
    ensures r == "UTC" || exists i :: 0 <= i < |CorrectedTable()| && CorrectedTable()[i].1 == r
  {
    Lookup(CorrectedTable(), OffsetKey(offset))
  }

  /** The UTC offsets, in minutes east, each named zone keeps in winter and
      in summer. */
  function ZoneOffsets(zone: string): set<int>
  {
    match zone
    case "UTC" => {0}
    case "Europe/London" => {0, 60}
    case "Europe/Berlin" => {60, 120}
    case "America/New_York" => {-300, -240}
    case "America/Chicago" => {-360, -300}
    case "America/Los_Angeles" => {-480, -420}
    case "Asia/Tokyo" => {540}
    case "Asia/Shanghai" => {480}
    case _ => {}
  }

  /** Each key of the corrected table names an hour offset its zone keeps. */
  lemma CorrectedTableAgrees()
    ensures forall i :: 0 <= i < |CorrectedTable()| && CorrectedTable()[i].0 != "0" ==>
      KeyHoursEast(CorrectedTable()[i].0) * 60 in ZoneOffsets(CorrectedTable()[i].1)
  {
    var t := CorrectedTable();
    assert ParseDigits("1") == 1 && ParseDigits("2") == 2 && ParseDigits("5") == 5;
    assert ParseDigits("6") == 6 && ParseDigits("8") == 8 && ParseDigits("9") == 9;
    assert t[1].0[1..] == "1" && t[2].0[1..] == "2" && t[3].0[1..] == "5";
    assert t[4].0[1..] == "6" && t[5].0[1..] == "8" && t[6].0[1..] == "9" && t[7].0[1..] == "8";
  }

  /** The corrected guess is sound: whenever it names a zone other than UTC,
      the browser's offset is one that zone keeps. */
  lemma OffsetToTimezoneSound(offset: int)
    ensures var z := OffsetToTimezone(offset);
      z != "UTC" ==> -offset in ZoneOffsets(z)
  {
    var z := OffsetToTimezone(offset);
    if z != "UTC" {
      var t := CorrectedTable();
      var key := OffsetKey(offset);
      var i :| 0 <= i < |t| && t[i].0 == key.value && t[i].1 == z;
      OffsetKeyRoundTrip(offset);
      CorrectedTableAgrees();
      assert i != 0;
      assert t[i].0 != "0";
      var hours := KeyHoursEast(t[i].0) * 60;
      assert hours in ZoneOffsets(t[i].1);
      assert hours == -offset;
    }
  }

  /** The key of a whole number of hours west of UTC. */
  lemma WestKey(offset: int, h: nat)
    requires 0 < h < 10 && offset == h * 60
    ensures OffsetKey(offset) == Some(['-', DigitChar(h)])
  {
    assert offset % 60 == 0 && offset / 60 == h;
    assert NatToString(h) == [DigitChar(h)];
    assert "-" + [DigitChar(h)] == ['-', DigitChar(h)];
  }

  /** The key of a whole number of hours east of UTC (or of UTC itself). */
  lemma EastKey(offset: int, h: nat)
    requires h < 10 && offset == -(h * 60)
    ensures OffsetKey(offset) == Some(['+', DigitChar(h)])
  {
    assert (-offset) % 60 == 0 && (-offset) / 60 == h;
    assert NatToString(h) == [DigitChar(h)];
    assert "+" + [DigitChar(h)] == ['+', DigitChar(h)];
  }

  /** The entry a key first appears in decides the lookup. */
  lemma {:induction false} LookupAt(table: Table, key: string, i: nat)
    requires i < |table| && table[i].0 == key && table[i].1 != ""
    requires forall j :: 0 <= j < i ==> table[j].0 != key
    ensures Lookup(table, Some(key)) == table[i].1
    decreases i
  {
    if i > 0 {
      LookupAt(table[1..], key, i - 1);
    }
  }

  /** The corrected guess names New York for the browser offset of its
      winter (300). */
  lemma NewYorkWinter()
    ensures OffsetToTimezone(300) == "America/New_York"
  {
    WestKey(300, 5);
    assert DigitChar(5) == '5';
    LookupAt(CorrectedTable(), "-5", 3);
  }

  /** The corrected guess names Los Angeles for the browser offset of its
      winter (480). */
  lemma LosAngelesWinter()
    ensures OffsetToTimezone(480) == "America/Los_Angeles"
  {
    WestKey(480, 8);
    assert DigitChar(8) == '8';
    LookupAt(CorrectedTable(), "-8", 5);
  }

  /** The corrected guess names Tokyo for its browser offset (-540). */
  lemma TokyoOffset()
    ensures OffsetToTimezone(-540) == "Asia/Tokyo"
  {
    EastKey(-540, 9);
    assert DigitChar(9) == '9';
    LookupAt(CorrectedTable(), "+9", 6);
  }

  /** As written, an offset of 0 builds the key `+0`, which misses the `0`
      entry, so the answer comes from the fallback. */
  lemma ZeroFallsBack()
    ensures OffsetKey(0) == Some("+0")
    ensures OffsetToTimezoneAsWritten(0) == "UTC"
  {
    EastKey(0, 0);
    assert DigitChar(0) == '0';
    var t := WrittenTable();
    assert t[0].0 != "+0" && t[1].0 != "+0" && t[2].0 != "+0" && t[3].0 != "+0";
    assert t[4].0 != "+0" && t[5].0 != "+0" && t[6].0 != "+0" && t[7].0 != "+0";
  }

  /** An offset that is not a whole number of hours falls back to UTC. */
  lemma FractionsFallBack(offset: int)
    requires offset % 60 != 0
    ensures OffsetToTimezoneAsWritten(offset) == "UTC" && OffsetToTimezone(offset) == "UTC"
  {
    assert OffsetKey(offset).None?;
  }

  lemma WrittenFiveEast()
    ensures OffsetToTimezoneAsWritten(-300) == "America/New_York"
  {
    EastKey(-300, 5);
    assert DigitChar(5) == '5';
    LookupAt(WrittenTable(), "+5", 3);
  }

  lemma WrittenFiveWest()
    ensures OffsetToTimezoneAsWritten(300) == "UTC"
  {
    WestKey(300, 5);
    assert DigitChar(5) == '5';
    var t := WrittenTable();
    assert t[0].0 != "-5" && t[1].0 != "-5" && t[2].0 != "-5" && t[3].0 != "-5";
    assert t[4].0 != "-5" && t[5].0 != "-5" && t[6].0 != "-5" && t[7].0 != "-5";
  }

  lemma WrittenNineWest()
    ensures OffsetToTimezoneAsWritten(540) == "Asia/Tokyo"
  {
    WestKey(540, 9);
    assert DigitChar(9) == '9';
    LookupAt(WrittenTable(), "-9", 6);
  }

  lemma WrittenEightWest()
    ensures OffsetToTimezoneAsWritten(480) == "Asia/Shanghai"
  {
    WestKey(480, 8);
    assert DigitChar(8) == '8';
    LookupAt(WrittenTable(), "-8", 7);
  }

  /** As written, -300 (a zone five hours east) gives New York, while New
      York's own browser offset, 300, gives UTC. */
  lemma AsWrittenNewYork()
    ensures OffsetToTimezoneAsWritten(-300) == "America/New_York" && 300 !in ZoneOffsets("America/New_York")
    ensures OffsetToTimezoneAsWritten(300) == "UTC"
  {
    assert ZoneOffsets("America/New_York") == {-300, -240};
    WrittenFiveEast();
    WrittenFiveWest();
  }

  /** As written, 540 (nine hours west) gives Tokyo, and Los Angeles's
      winter offset, 480, gives Shanghai. */
  lemma AsWrittenAsia()
    ensures OffsetToTimezoneAsWritten(540) == "Asia/Tokyo" && -540 !in ZoneOffsets("Asia/Tokyo")
    ensures OffsetToTimezoneAsWritten(480) == "Asia/Shanghai" && -480 !in ZoneOffsets("Asia/Shanghai")
  {
    assert ZoneOffsets("Asia/Tokyo") == {540} && ZoneOffsets("Asia/Shanghai") == {480};
    WrittenNineWest();
    WrittenEightWest();
  }

  /** A dropdown entry. */
  datatype Choice = Choice(value: string, caption: string)

  /** `getCommonTimezones`. */
  function CommonTimezones(): (r: seq<Choice>)
    ensures |r| == 12 && r[0].value == "UTC"
    ensures DistinctBy(r, (c: Choice) => c.value)
  {
    [Choice("UTC", "UTC (Coordinated Universal Time)"),
     Choice("America/New_York", "Eastern Time (US & Canada)"),
     Choice("America/Chicago", "Central Time (US & Canada)"),
     Choice("America/Denver", "Mountain Time (US & Canada)"),
     Choice("America/Los_Angeles", "Pacific Time (US & Canada)"),
     Choice("Europe/London", "London"),
     Choice("Europe/Berlin", "Berlin"),
     Choice("Europe/Paris", "Paris"),
     Choice("Asia/Tokyo", "Tokyo"),
     Choice("Asia/Shanghai", "Shanghai"),
     Choice("Asia/Kolkata", "Mumbai, Kolkata"),
     Choice("Australia/Sydney", "Sydney")]
  }

  /** Every zone the guess can produce is offered in the dropdown. */
  lemma GuessesAreOffered()
    ensures forall i :: 0 <= i < |CorrectedTable()| ==>
      exists j :: 0 <= j < |CommonTimezones()| && CommonTimezones()[j].value == CorrectedTable()[i].1
  {
    var c := CommonTimezones();
    var t := CorrectedTable();
    assert t[0].1 == c[0].value && t[1].1 == c[5].value && t[2].1 == c[6].value && t[3].1 == c[1].value;
    assert t[4].1 == c[2].value && t[5].1 == c[4].value && t[6].1 == c[8].value && t[7].1 == c[9].value;
  }
}
