/**
 * Comma-separated lists as main.c reads them: `count_char` (main.c:287-300)
 * and the `strtok(…, ",")` loops that cut a list into station names. The
 * tokens `strtok` yields are related to an independent reference, the list
 * of all fields between separators (empty ones included).
 */
module CommaList {
  import opened CTypes

  const NUL: char := '\0'

  /** Index of the first NUL in a buffer: where C string functions stop. */
  function NulIndex(buf: seq<char>): (n: nat)
    requires NUL in buf
    ensures n < |buf| && buf[n] == NUL
    ensures forall i :: 0 <= i < n ==> buf[i] != NUL
  {
    if buf[0] == NUL then 0 else 1 + NulIndex(buf[1..])
  }

  /** The C string held by a buffer: its characters before the first NUL. */
  function CStr(buf: seq<char>): (s: seq<char>)
    requires NUL in buf
    ensures |s| < |buf| && NUL !in s
  {
    buf[..NulIndex(buf)]
  }

  /**
   * count_char (main.c:287-300): one plus the number of occurrences of `ch`
   * in the C string, i.e. the number of `ch`-separated fields. The buffer
   * fits in `unsigned int` indexing, so neither counter wraps.
   */
  method CountChar(buf: seq<char>, ch: char) returns (count: uint32)
    requires NUL in buf && |buf| <= UINT32_MAX
    ensures count as int == 1 + multiset(CStr(buf))[ch]
    ensures 1 <= count as int <= |CStr(buf)| + 1
  {
    var idx: uint32 := 0;
    count := 1;
    while buf[idx] != NUL
      invariant idx as int <= NulIndex(buf)
      invariant count as int == 1 + multiset(buf[..idx])[ch]
      invariant count as int <= idx as int + 1
      decreases NulIndex(buf) - idx as int
    {
      assert buf[..idx + 1] == buf[..idx] + [buf[idx]];
      if buf[idx] == ch {
        count := count + 1;
      }
      idx := idx + 1;
    }
    assert buf[..idx] == CStr(buf);
  }

  /** Every field of `s` between `d` separators, empty fields included, in order. */
  function Fields(s: seq<char>, d: char): (fs: seq<seq<char>>)
    ensures |fs| >= 1
    decreases |s|
  {
    if s == [] then [[]]
    else if s[0] == d then [[]] + Fields(s[1..], d)
      else
        var rest := Fields(s[1..], d);
        [[s[0]] + rest[0]] + rest[1..]
  }

  /** There is one field more than there are delimiters. */
  lemma {:induction false} FieldCount(s: seq<char>, d: char)
    ensures |Fields(s, d)| == 1 + multiset(s)[d]
    decreases |s|
  {
    if s != [] {
      FieldCount(s[1..], d);
      assert s == [s[0]] + s[1..];
    }
  }

  /** No field holds a delimiter. */
  lemma {:induction false} FieldsFreeOfDelim(s: seq<char>, d: char)
    ensures forall k :: 0 <= k < |Fields(s, d)| ==> d !in Fields(s, d)[k]
    decreases |s|
  {
    if s != [] {
      FieldsFreeOfDelim(s[1..], d);
      var rest := Fields(s[1..], d);
      if s[0] == d {
        assert forall k :: 1 <= k < |Fields(s, d)| ==> Fields(s, d)[k] == rest[k - 1];
      } else {
        assert forall k :: 1 <= k < |Fields(s, d)| ==> Fields(s, d)[k] == rest[k];
      }
    }
  }

  /** The non-empty members of `fs`, in order. */
  function NonEmpty(fs: seq<seq<char>>): (ts: seq<seq<char>>)
    ensures |ts| <= |fs|
    ensures forall k :: 0 <= k < |ts| ==> ts[k] != [] && ts[k] in fs
  {
    if fs == [] then []
    else (if fs[0] == [] then [] else [fs[0]]) + NonEmpty(fs[1..])
  }

  /** The tokens `strtok` yields from `s` with delimiter `d`: the non-empty fields, in order. */
  function Tokens(s: seq<char>, d: char): seq<seq<char>>
  {
    NonEmpty(Fields(s, d))
  }

  /** No token is empty and none holds the delimiter. */
  lemma TokensWellFormed(s: seq<char>, d: char)
    ensures forall k :: 0 <= k < |Tokens(s, d)| ==> Tokens(s, d)[k] != [] && d !in Tokens(s, d)[k]
  {
    FieldsFreeOfDelim(s, d);
  }

  /**
   * There are never more tokens than count_char reports, so an array with
   * that many slots is never overrun.
   */
  lemma TokenCountBound(s: seq<char>, d: char)
    ensures |Tokens(s, d)| <= 1 + multiset(s)[d]
  {
    FieldCount(s, d);
  }

  /** First position at or after `k` that does not hold `d` (strspn). */
  function SkipDelims(s: seq<char>, d: char, k: nat): (b: nat)
    requires k <= |s|
    ensures k <= b <= |s| && (b < |s| ==> s[b] != d)
    ensures forall i :: k <= i < b ==> s[i] == d
    decreases |s| - k
  {
    if k < |s| && s[k] == d then SkipDelims(s, d, k + 1) else k
  }

  /** First position at or after `k` that holds `d`, or the end (strcspn). */
  function SpanEnd(s: seq<char>, d: char, k: nat): (e: nat)
    requires k <= |s|
    ensures k <= e <= |s| && (e < |s| ==> s[e] == d)
    ensures forall i :: k <= i < e ==> s[i] != d
    decreases |s| - k
  {
    if k < |s| && s[k] != d then SpanEnd(s, d, k + 1) else k
  }

  /** A token and the position where the next `strtok(NULL, …)` resumes. */
  datatype Token = Token(text: seq<char>, resume: nat)

  /**
   * `strtok` (ISO C11, section 7.24.5.8) with its saved position made explicit:
   * skip leading delimiters; at the end of the string there is no token (NULL);
   * otherwise the token runs to the next delimiter, which is overwritten by
   * NUL, and the search resumes just past it.
   */
  function StrTok(s: seq<char>, d: char, pos: nat): (r: Option<Token>)
    requires pos <= |s|
    ensures r.Some? ==> pos < r.value.resume <= |s|
    ensures r.Some? ==> r.value.text != [] && d !in r.value.text
    ensures r.None? <==> forall i :: pos <= i < |s| ==> s[i] == d
    decreases |s| - pos
  {
    if pos == |s| then None
    else if s[pos] == d then StrTok(s, d, pos + 1)
    else
      var e := SpanEnd(s, d, pos);
      assert forall i :: 0 <= i < e - pos ==> s[pos..e][i] == s[pos + i];
      Some(Token(s[pos..e], if e < |s| then e + 1 else e))
  }

  /** Leading delimiters contribute only empty fields, which `strtok` skips. */
  lemma {:induction false} SkippedDelimsYieldNothing(s: seq<char>, d: char, pos: nat)
    requires pos <= |s|
    ensures Tokens(s[pos..], d) == Tokens(s[SkipDelims(s, d, pos)..], d)
    decreases |s| - pos
  {
    if pos < |s| && s[pos] == d {
      assert s[pos..][1..] == s[pos + 1..];
      assert Fields(s[pos..], d) == [[]] + Fields(s[pos + 1..], d);
      SkippedDelimsYieldNothing(s, d, pos + 1);
    }
  }

  /** A delimiter-free prefix of `t` is the start of its first field. */
  lemma {:induction false} PlainPrefixStartsFirstField(t: seq<char>, d: char, m: nat)
    requires m <= |t|
    requires forall i :: 0 <= i < m ==> t[i] != d
    ensures Fields(t, d) == [t[..m] + Fields(t[m..], d)[0]] + Fields(t[m..], d)[1..]
    decreases m
  {
    if m == 0 {
      var f := Fields(t, d);
      assert t[..0] == [] && t[0..] == t;
      assert [] + f[0] == f[0];
      assert [f[0]] + f[1..] == f;
    } else {
      var u := t[1..];
      assert u[m - 1..] == t[m..];
      PlainPrefixStartsFirstField(u, d, m - 1);
      var f := Fields(t[m..], d);
      assert Fields(u, d) == [u[..m - 1] + f[0]] + f[1..];
      assert Fields(t, d) == [[t[0]] + Fields(u, d)[0]] + Fields(u, d)[1..];
      assert t[..m] == [t[0]] + u[..m - 1];
      assert [t[0]] + (u[..m - 1] + f[0]) == t[..m] + f[0];
    }
  }

  /** From a non-delimiter at `b`, the first field runs to the next delimiter, and the later fields follow it. */
  lemma FieldsAtToken(s: seq<char>, d: char, b: nat)
    requires b < |s| && s[b] != d
    ensures var e := SpanEnd(s, d, b);
      Fields(s[b..], d) == [s[b..e]] + (if e < |s| then Fields(s[e + 1..], d) else [])
  {
    var e := SpanEnd(s, d, b);
    var t := s[b..];
    assert t[..e - b] == s[b..e];
    assert t[e - b..] == s[e..];
    PlainPrefixStartsFirstField(t, d, e - b);
    var f := Fields(s[e..], d);
    if e < |s| {
      assert s[e..][1..] == s[e + 1..];
      assert f == [[]] + Fields(s[e + 1..], d);
    } else {
      assert s[e..] == [];
      assert f == [[]];
    }
    assert f[0] == [] && s[b..e] + f[0] == s[b..e];
  }

  /** A non-empty field in front is kept in front. */
  lemma NonEmptyFront(tok: seq<char>, later: seq<seq<char>>)
    requires tok != []
    ensures NonEmpty([tok] + later) == [tok] + NonEmpty(later)
  {
    assert ([tok] + later)[1..] == later;
  }

  /** From a non-delimiter at `b`, the rest of the string starts with the token up to the next delimiter. */
  lemma TokenAtStart(s: seq<char>, d: char, b: nat)
    requires b < |s| && s[b] != d
    ensures var e := SpanEnd(s, d, b);
      Tokens(s[b..], d) == [s[b..e]] + Tokens(s[if e < |s| then e + 1 else e..], d)
  {
    var e := SpanEnd(s, d, b);
    FieldsAtToken(s, d, b);
    var tok := s[b..e];
    assert tok != [] by { assert tok[0] == s[b]; }
    if e < |s| {
      NonEmptyFront(tok, Fields(s[e + 1..], d));
    } else {
      NonEmptyFront(tok, []);
      assert s[e..] == [];
      assert Fields(s[e..], d) == [[]];
    }
  }

  /** Skipping the leading delimiters first does not change what `strtok` returns. */
  lemma {:induction false} StrTokSkipsDelims(s: seq<char>, d: char, pos: nat)
    requires pos <= |s|
    ensures StrTok(s, d, pos) == StrTok(s, d, SkipDelims(s, d, pos))
    decreases |s| - pos
  {
    if pos < |s| && s[pos] == d {
      StrTokSkipsDelims(s, d, pos + 1);
    }
  }

  /**
   * One `strtok` call splits off exactly the first token of the rest of the
   * string; NULL means no token is left.
   */
  lemma StrTokSplits(s: seq<char>, d: char, pos: nat)
    requires pos <= |s|
    ensures StrTok(s, d, pos).None? ==> Tokens(s[pos..], d) == []
    ensures StrTok(s, d, pos).Some? ==>
      Tokens(s[pos..], d) == [StrTok(s, d, pos).value.text] + Tokens(s[StrTok(s, d, pos).value.resume..], d)
  {
    SkippedDelimsYieldNothing(s, d, pos);
    StrTokSkipsDelims(s, d, pos);
    var b := SkipDelims(s, d, pos);
    if b == |s| {
      assert s[b..] == [];
      assert Tokens(s[b..], d) == [];
    } else {
      TokenAtStart(s, d, b);
    }
  }

  /**
   * What a caller sees who calls `strtok` from cursor `pos` until it returns
   * NULL: the text of each token, in order.
   */
  function StrTokAll(s: seq<char>, d: char, pos: nat): seq<seq<char>>
    requires pos <= |s|
    decreases |s| - pos
  {
    match StrTok(s, d, pos)
    case None => []
    case Some(t) => [t.text] + StrTokAll(s, d, t.resume)
  }

  /** Calling `strtok` until NULL yields exactly the non-empty fields. */
  lemma {:induction false} StrTokAllIsTokens(s: seq<char>, d: char, pos: nat)
    requires pos <= |s|
    ensures StrTokAll(s, d, pos) == Tokens(s[pos..], d)
    decreases |s| - pos
  {
    StrTokSplits(s, d, pos);
    match StrTok(s, d, pos)
    case None =>
    case Some(t) => StrTokAllIsTokens(s, d, t.resume);
  }

  /** The characters of the fields, joined in order. */
  function Concat(fs: seq<seq<char>>): seq<char>
  {
    if fs == [] then [] else fs[0] + Concat(fs[1..])
  }

  /** `s` with every `d` removed. */
  function Without(s: seq<char>, d: char): seq<char>
  {
    if s == [] then []
    else (if s[0] == d then [] else [s[0]]) + Without(s[1..], d)
  }

  lemma {:induction false} ConcatNonEmpty(fs: seq<seq<char>>)
    ensures Concat(NonEmpty(fs)) == Concat(fs)
  {
    if fs != [] {
      ConcatNonEmpty(fs[1..]);
      assert Concat(fs) == fs[0] + Concat(fs[1..]);
      if fs[0] != [] {
        var ts := [fs[0]] + NonEmpty(fs[1..]);
        assert NonEmpty(fs) == ts;
        assert ts[0] == fs[0] && ts[1..] == NonEmpty(fs[1..]);
        assert Concat(ts) == fs[0] + Concat(NonEmpty(fs[1..]));
      } else {
        assert NonEmpty(fs) == NonEmpty(fs[1..]);
        assert Concat(fs) == Concat(fs[1..]);
      }
    }
  }

  lemma {:induction false} ConcatFields(s: seq<char>, d: char)
    ensures Concat(Fields(s, d)) == Without(s, d)
    decreases |s|
  {
    if s != [] {
      ConcatFields(s[1..], d);
      var rest := Fields(s[1..], d);
      if s[0] == d {
        assert ([[]] + rest)[1..] == rest;
      } else {
        assert Concat(rest) == rest[0] + Concat(rest[1..]);
        assert ([[s[0]] + rest[0]] + rest[1..])[1..] == rest[1..];
      }
    }
  }

  /**
   * The tokens, joined in order, give back the input with every delimiter
   * removed: splitting loses nothing but the commas.
   */
  lemma TokensJoinToInput(s: seq<char>, d: char)
    ensures Concat(Tokens(s, d)) == Without(s, d)
  {
    ConcatNonEmpty(Fields(s, d));
    ConcatFields(s, d);
  }

  /** A list with no leading, trailing or doubled delimiter, and not empty. */
  predicate WellFormed(s: seq<char>, d: char)
  {
    s != [] && s[0] != d && s[|s| - 1] != d &&
    forall k :: 0 <= k < |s| - 1 ==> !(s[k] == d && s[k + 1] == d)
  }

  /** Every delimiter of `t` is followed by a non-delimiter. */
  predicate DelimsFollowed(t: seq<char>, d: char)
  {
    forall k :: 0 <= k < |t| && t[k] == d ==> k + 1 < |t| && t[k + 1] != d
  }

  /** No member of `fs` is empty. */
  predicate NoneEmpty(fs: seq<seq<char>>)
  {
    forall k :: 0 <= k < |fs| ==> fs[k] != []
  }

  lemma NoneEmptyCons(fs: seq<seq<char>>)
    requires fs != []
    ensures NoneEmpty(fs) <==> fs[0] != [] && NoneEmpty(fs[1..])
  {
    if fs[0] != [] && NoneEmpty(fs[1..]) {
      forall k | 1 <= k < |fs| ensures fs[k] != [] {
        assert fs[k] == fs[1..][k - 1];
      }
    }
  }

  lemma {:induction false} NonEmptyKeepsAll(fs: seq<seq<char>>)
    ensures |NonEmpty(fs)| == |fs| <==> NoneEmpty(fs)
  {
    if fs != [] {
      NonEmptyKeepsAll(fs[1..]);
      NoneEmptyCons(fs);
    }
  }

  /** The fields after the first are all non-empty exactly when every delimiter is followed by a non-delimiter. */
  lemma {:induction false} LaterFieldsNonEmpty(t: seq<char>, d: char)
    ensures NoneEmpty(Fields(t, d)[1..]) <==> DelimsFollowed(t, d)
    decreases |t|
  {
    if t != [] {
      var u := t[1..];
      LaterFieldsNonEmpty(u, d);
      var rest := Fields(u, d);
      NoneEmptyCons(rest);
      assert forall k :: 0 <= k < |u| ==> u[k] == t[k + 1];
      if t[0] == d {
        assert Fields(t, d) == [[]] + rest;
        assert Fields(t, d)[1..] == rest;
        assert rest[0] == [] <==> (u == [] || u[0] == d);
        assert DelimsFollowed(t, d) <==> (|t| > 1 && t[1] != d && DelimsFollowed(u, d));
      } else {
        assert Fields(t, d) == [[t[0]] + rest[0]] + rest[1..];
        assert Fields(t, d)[1..] == rest[1..];
        assert DelimsFollowed(t, d) <==> DelimsFollowed(u, d);
      }
    }
  }

  /**
   * `num_stations_per_line[i]` comes from count_char (main.c:311, main.c:328),
   * not from the number of tokens written. The two agree exactly when the
   * list is non-empty and has no leading, trailing or doubled delimiter.
   */
  lemma TokenCountMatchesCountChar(s: seq<char>, d: char)
    ensures |Tokens(s, d)| == 1 + multiset(s)[d] <==> WellFormed(s, d)
  {
    var fs := Fields(s, d);
    FieldCount(s, d);
    NonEmptyKeepsAll(fs);
    LaterFieldsNonEmpty(s, d);
    NoneEmptyCons(fs);
    if s != [] && s[0] != d {
      assert fs[0] != [];
      if WellFormed(s, d) {
        forall k | 0 <= k < |s| && s[k] == d ensures k + 1 < |s| && s[k + 1] != d {
          assert k != |s| - 1;
        }
      }
      if DelimsFollowed(s, d) {
        assert s[|s| - 1] != d;
      }
    } else {
      assert fs[0] == [];
    }
  }
}
