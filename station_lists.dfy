/**
 * The loops of main.c that cut comma-separated input lines into station
 * names: the body of `get_stations_in_lines` (main.c:302-333) and
 * `get_station_names` (main.c:335-348). Each name is written into its own
 * slot of an array sized beforehand. The raw lines that `scanf` reads are
 * given as buffers.
 */
module StationLists {
  import opened CTypes
  import opened CommaList

  const COMMA: char := ','

  /**
   * The `strtok` loop of main.c:314-323: what the successive `strtok` calls
   * return is copied, in order, into the first slots of `names`, and nothing
   * else is written.
   */
  method CopyTokens(text: seq<char>, names: array<seq<char>>)
    requires |StrTokAll(text, COMMA, 0)| <= names.Length
    modifies names
    ensures names[..|StrTokAll(text, COMMA, 0)|] == StrTokAll(text, COMMA, 0)
    ensures names[|StrTokAll(text, COMMA, 0)|..] == old(names[|StrTokAll(text, COMMA, 0)|..])
  {
    ghost var all := StrTokAll(text, COMMA, 0);
    var pos: nat := 0;
    var stationName := StrTok(text, COMMA, pos);
    ghost var copied: seq<seq<char>> := [];
    var j := 0;
    while stationName.Some?
      invariant pos <= |text| && stationName == StrTok(text, COMMA, pos)
      invariant copied + StrTokAll(text, COMMA, pos) == all
      invariant j == |copied| <= |all| <= names.Length
      invariant names[..j] == copied && names[|all|..] == old(names[|all|..])
      decreases |text| - pos
    {
      ghost var later := StrTokAll(text, COMMA, stationName.value.resume);
      assert (copied + [stationName.value.text]) + later == copied + ([stationName.value.text] + later);
      names[j] := stationName.value.text;
      copied := copied + [stationName.value.text];
      pos := stationName.value.resume;
      stationName := StrTok(text, COMMA, pos);
      j := j + 1;
    }
  }

  /**
   * One line of `get_stations_in_lines` (main.c:307-329): the slot array has
   * count_char slots, the `strtok` loop fills its first slots with the tokens
   * in order and never writes past its end, and the reported station count
   * is count_char's value.
   */
  method SplitStationList(raw: seq<char>) returns (names: array<seq<char>>, numStationsInLine: uint32)
    requires NUL in raw && |raw| <= UINT32_MAX
    ensures fresh(names)
    ensures names.Length == numStationsInLine as int == 1 + multiset(CStr(raw))[COMMA]
    ensures |Tokens(CStr(raw), COMMA)| <= names.Length
    ensures names[..|Tokens(CStr(raw), COMMA)|] == Tokens(CStr(raw), COMMA)
  {
    numStationsInLine := CountChar(raw, COMMA);
    names := new seq<char>[numStationsInLine];
    var text := CStr(raw);
    TokenCountBound(text, COMMA);
    StrTokAllIsTokens(text, COMMA, 0);
    assert text[0..] == text;
    CopyTokens(text, names);
  }

  /**
   * `get_stations_in_lines` (main.c:302-333): every line is split as above,
   * and `num_stations_per_line[i]` is set from count_char.
   */
  method GetStationsInLines(raws: seq<seq<char>>, numStationsPerLine: array<uint32>)
    returns (stationsInLines: seq<array<seq<char>>>)
    requires numStationsPerLine.Length == |raws|
    requires forall i :: 0 <= i < |raws| ==> NUL in raws[i] && |raws[i]| <= UINT32_MAX
    modifies numStationsPerLine
    ensures |stationsInLines| == |raws|
    ensures forall i :: 0 <= i < |raws| ==>
      fresh(stationsInLines[i]) &&
      stationsInLines[i].Length == numStationsPerLine[i] as int == 1 + multiset(CStr(raws[i]))[COMMA] &&
      |Tokens(CStr(raws[i]), COMMA)| <= stationsInLines[i].Length &&
      stationsInLines[i][..|Tokens(CStr(raws[i]), COMMA)|] == Tokens(CStr(raws[i]), COMMA)
  {
    stationsInLines := [];
    for i := 0 to |raws|
      invariant |stationsInLines| == i
      invariant forall k :: 0 <= k < i ==>
        fresh(stationsInLines[k]) &&
        stationsInLines[k].Length == numStationsPerLine[k] as int == 1 + multiset(CStr(raws[k]))[COMMA] &&
        |Tokens(CStr(raws[k]), COMMA)| <= stationsInLines[k].Length &&
        stationsInLines[k][..|Tokens(CStr(raws[k]), COMMA)|] == Tokens(CStr(raws[k]), COMMA)
    {
      var names, numStationsInLine := SplitStationList(raws[i]);
      stationsInLines := stationsInLines + [names];
      numStationsPerLine[i] := numStationsInLine;
    }
  }

  /**
   * The loop of `get_station_names` (main.c:339-345): one token per slot, in
   * order, for as long as `strtok` returns tokens. `ok` says every slot got one.
   */
  method CopyFirstTokens(text: seq<char>, names: array<seq<char>>) returns (ok: bool)
    modifies names
    ensures ok <==> names.Length <= |StrTokAll(text, COMMA, 0)|
    ensures ok ==> names[..] == StrTokAll(text, COMMA, 0)[..names.Length]
    ensures !ok ==> names[..|StrTokAll(text, COMMA, 0)|] == StrTokAll(text, COMMA, 0)
  {
    ghost var all := StrTokAll(text, COMMA, 0);
    var pos: nat := 0;
    var stationName := StrTok(text, COMMA, pos);
    ghost var copied: seq<seq<char>> := [];
    var i := 0;
    while i < names.Length && stationName.Some?
      invariant pos <= |text| && stationName == StrTok(text, COMMA, pos)
      invariant copied + StrTokAll(text, COMMA, pos) == all
      invariant i == |copied| <= names.Length
      invariant names[..i] == copied
      decreases names.Length - i
    {
      ghost var later := StrTokAll(text, COMMA, stationName.value.resume);
      assert (copied + [stationName.value.text]) + later == copied + ([stationName.value.text] + later);
      names[i] := stationName.value.text;
      copied := copied + [stationName.value.text];
      pos := stationName.value.resume;
      stationName := StrTok(text, COMMA, pos);
      i := i + 1;
    }
    ok := i == names.Length;
    if ok {
      assert names[..] == names[..i];
      assert all[..i] == copied;
    }
  }

  /**
   * `get_station_names` (main.c:335-348): the first `numStations` tokens of
   * the list, one per slot. When the list holds fewer tokens, `strtok`
   * returns NULL and the C code copies from it (undefined behaviour); the
   * model stops there with `ok` false, the slots so far filled.
   */
  method GetStationNames(raw: seq<char>, numStations: uint32) returns (names: array<seq<char>>, ok: bool)
    requires NUL in raw
    ensures fresh(names) && names.Length == numStations as int
    ensures ok <==> numStations as int <= |Tokens(CStr(raw), COMMA)|
    ensures ok ==> names[..] == Tokens(CStr(raw), COMMA)[..numStations]
    ensures !ok ==> names[..|Tokens(CStr(raw), COMMA)|] == Tokens(CStr(raw), COMMA)
  {
    names := new seq<char>[numStations];
    var text := CStr(raw);
    ok := CopyFirstTokens(text, names);
    StrTokAllIsTokens(text, COMMA, 0);
    assert text[0..] == text;
  }
}
