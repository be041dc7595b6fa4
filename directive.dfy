/**
 The save-memory directive protocol of `handle_message`: the scan
 `re.search(r'SAVE_MEMORY:\s*(\{.*?\})', response, re.DOTALL)`, the payload's
 interpretation, the one save call, and the marker removal
 `re.sub(r'SAVE_MEMORY:.*?(?=\n|$)', '', response, flags=re.DOTALL).strip()`.
 Both patterns are written out as scans over the reply text.
 */
module Directive {
  import opened Wrappers
  import opened Text
  import opened Json
  import opened MemoryClient

  const Marker := "SAVE_MEMORY:"

  /** The marker starts at index `i` of `s`. */
  predicate MarkerAt(s: string, i: nat)
  {
    i + |Marker| <= |s| && s[i..i + |Marker|] == Marker
  }

  /** No occurrence of the marker anywhere in `s`. */
  predicate NoMarker(s: string)
  {
    forall i | 0 <= i <= |s| :: !MarkerAt(s, i)
  }

  predicate AllSpace(s: string)
  {
    forall i | 0 <= i < |s| :: IsSpace(s[i])
  }

  /** The search pattern matches at `i` with the `{` at `open` and the `}` at
      `close`: the marker, then only whitespace, then `{`, then any characters
      (newlines included), then `}`. */
  ghost predicate MatchesWith(s: string, i: nat, open: nat, close: nat)
  {
    && MarkerAt(s, i)
    && i + |Marker| <= open < close < |s|
    && AllSpace(s[i + |Marker|..open])
    && s[open] == '{' && s[close] == '}'
  }

  /** The search pattern has some match starting at `i`. */
  ghost predicate MatchesAt(s: string, i: nat)
  {
    exists open: nat, close: nat :: MatchesWith(s, i, open, close)
  }

  /** A successful search: where the marker starts, and the `{` and `}` that
      delimit the payload. */
  datatype Match = Match(start: nat, open: nat, close: nat)

  /** Index of the first character at or after `k` that is not whitespace. */
  function SkipSpace(s: string, k: nat): (j: nat)
    requires k <= |s|
    ensures k <= j <= |s|
    ensures AllSpace(s[k..j])
    ensures j == |s| || !IsSpace(s[j])
    decreases |s| - k
  {
    if k == |s| || !IsSpace(s[k]) then k
    else
      var j := SkipSpace(s, k + 1);
      assert s[k..j] == [s[k]] + s[k + 1..j];
      j
  }

  /** Index of the first `}` at or after `k`, if any. */
  function FindClose(s: string, k: nat): (r: Option<nat>)
    requires k <= |s|
    ensures r.Some? ==> k <= r.value < |s| && s[r.value] == '}'
    ensures r.Some? ==> forall p | k <= p < r.value :: s[p] != '}'
    ensures r.None? ==> forall p | k <= p < |s| :: s[p] != '}'
    decreases |s| - k
  {
    if k == |s| then None
    else if s[k] == '}' then Some(k)
    else FindClose(s, k + 1)
  }

  /** The regular-expression engine's attempt at index `i`: the greedy `\s*`
      can only end where `{` follows, and the lazy `.*?` stops at the first
      `}`. */
  function MatchAt(s: string, i: nat): (r: Option<Match>)
    ensures r.Some? ==> r.value.start == i && MatchesWith(s, i, r.value.open, r.value.close)
    ensures r.Some? ==> forall p | r.value.open < p < r.value.close :: s[p] != '}'
    ensures r.None? ==> !MatchesAt(s, i)
  {
    if !MarkerAt(s, i) then None
    else
      var open := SkipSpace(s, i + |Marker|);
      if open == |s| || s[open] != '{' then None
      else
        match FindClose(s, open + 1)
        case None =>
          NoMatchWithoutClose(s, i, open);
          None
        case Some(close) => Some(Match(i, open, close))
  }

  /** When no `}` follows the `{`, no match starts at `i`. */
  lemma NoMatchWithoutClose(s: string, i: nat, open: nat)
    requires MarkerAt(s, i)
    requires open == SkipSpace(s, i + |Marker|)
    requires open < |s| && s[open] == '{'
    requires forall p | open + 1 <= p < |s| :: s[p] != '}'
    ensures !MatchesAt(s, i)
  {
    forall o: nat, c: nat | MatchesWith(s, i, o, c) ensures false {
      BraceAfterSpace(s, i + |Marker|, o, open);
    }
  }

  /** `re.search` from index `i` on: the first index at which the pattern
      matches. */
  function SearchFrom(s: string, i: nat): (r: Option<Match>)
    requires i <= |s|
    ensures r.Some? ==> i <= r.value.start && MatchesWith(s, r.value.start, r.value.open, r.value.close)
    ensures r.Some? ==> forall p | r.value.open < p < r.value.close :: s[p] != '}'
    ensures r.Some? ==> forall q | i <= q < r.value.start :: !MatchesAt(s, q)
    ensures r.None? ==> forall q | i <= q <= |s| :: !MatchesAt(s, q)
    decreases |s| - i
  {
    var here := MatchAt(s, i);
    if here.Some? then here
    else if i == |s| then None
    else SearchFrom(s, i + 1)
  }

  /** `re.search(r'SAVE_MEMORY:\s*(\{.*?\})', s, re.DOTALL)`. */
  function Search(s: string): (r: Option<Match>)
    ensures r.Some? ==> MatchesWith(s, r.value.start, r.value.open, r.value.close)
    ensures r.Some? ==> forall p | r.value.open < p < r.value.close :: s[p] != '}'
    ensures r.Some? ==> forall q | 0 <= q < r.value.start :: !MatchesAt(s, q)
    ensures r.None? <==> forall q | 0 <= q <= |s| :: !MatchesAt(s, q)
  {
    var r := SearchFrom(s, 0);
    assert r.Some? ==> MatchesAt(s, r.value.start);
    r
  }

  /** `save_match.group(1)`: from the `{` through the first `}` after it. */
  function Payload(s: string, m: Match): string
    requires m.open < m.close < |s|
  {
    s[m.open..m.close + 1]
  }

  /** First index `p >= k` at which the lookahead `(?=\n|$)` holds: a newline,
      or the end of the text. (`$` also holds just before a final newline, a
      position the first alternative already covers.) */
  function LineEnd(s: string, k: nat): (p: nat)
    requires k <= |s|
    ensures k <= p <= |s|
    ensures p < |s| ==> s[p] == '\n'
    ensures forall q | k <= q < p :: s[q] != '\n'
    decreases |s| - k
  {
    if k == |s| || s[k] == '\n' then k else LineEnd(s, k + 1)
  }

  /** `re.sub(r'SAVE_MEMORY:.*?(?=\n|$)', '', s, flags=re.DOTALL)`: every
      marker, left to right, is deleted together with the rest of its line;
      the newline itself stays. */
  function StripMarkers(s: string): (r: string)
    ensures |r| <= |s|
    decreases |s|
  {
    if s == [] then []
    else if MarkerAt(s, 0) then StripMarkers(s[LineEnd(s, |Marker|)..])
    else [s[0]] + StripMarkers(s[1..])
  }

  /** The reply text after a directive was found: markers removed, then
      `.strip()`. */
  function CleanReply(s: string): (r: string)
    ensures NoMarker(r)
    ensures IsStripped(r)
  {
    var t := StripMarkers(s);
    StripMarkersRemovesAll(s);
    var r := Strip(t);
    NoMarkerSlice(t, LeadingSpace(t), LeadingSpace(t) + |r|);
    r
  }

  /** The value of `memory_data.get("importance", 3)`. */
  const DefaultImportance := JInt(3)

  /** What `handle_message` does with the chat reply `response`. */
  datatype Outcome =
    | Reply(text: string)                                 // no directive: sent as received
    | SavedThenReply(save: SaveRequest, text: string)     // one save call, then the cleaned reply
    | Raised                                              // json.loads or ["content"] raised: nothing sent

  /** Lines 86-95 of the handler for one reply. `parse` stands for
      `json.loads` (None: it raised), `store` for the memory store's answer
      to a save request. A reply is sent unchanged exactly when there is no
      match; a save is always for this assistant and user, and is followed by
      the cleaned reply. */
  function HandleReply(aiId: string, userId: string, response: string,
                       parse: string -> Option<Json>, store: SaveRequest -> SaveReply): (o: Outcome)
    ensures o.Reply? <==> Search(response).None?
    ensures o.Reply? ==> o.text == response
    ensures o.SavedThenReply? ==> o.save.aiId == aiId && o.save.userId == userId
                                  && o.text == CleanReply(response)
  {
    match Search(response)
    case None => Reply(response)
    case Some(m) =>
      match parse(Payload(response, m))
      case None => Raised
      case Some(memoryData) =>
        match Lookup(memoryData, "content")
        case None => Raised
        case Some(content) =>
          var importance :=
            if memoryData.JObject? && "importance" in memoryData.fields
            then memoryData.fields["importance"] else DefaultImportance;
          var request := SaveRequest(aiId, userId, content, importance);
          // The one `save_memory` call; its boolean result is discarded.
          var _ := SaveSucceeded(store(request));
          SavedThenReply(request, CleanReply(response))
  }

  // ---------------------------------------------------------------------
  // The scan

  /** The payload handed to `json.loads` runs from the first `{` after the
      leftmost qualifying marker (and its whitespace) to the first `}` after
      that `{`; it holds no other `}`, so it is not a balanced-brace scan. */
  lemma PayloadSpan(s: string)
    requires Search(s).Some?
    ensures var m := Search(s).value; var p := Payload(s, m);
      && MarkerAt(s, m.start)
      && AllSpace(s[m.start + |Marker|..m.open])
      && |p| >= 2 && p[0] == '{' && p[|p| - 1] == '}'
      && '}' !in p[..|p| - 1]
      && forall q | 0 <= q < m.start :: !MatchesAt(s, q)
  {
    var m := Search(s).value;
    var p := Payload(s, m);
    forall k | 0 <= k < |p| - 1 ensures p[k] != '}' {
      assert p[k] == s[m.open + k];
    }
  }

  /** The match is determined by the text: a qualifying marker with no
      earlier marker before it, its `{` and the first `}` after that `{` are
      exactly what the search returns. */
  lemma SearchFinds(s: string, i: nat, open: nat, close: nat)
    requires MatchesWith(s, i, open, close)
    requires forall p | open < p < close :: s[p] != '}'
    requires forall q | 0 <= q < i :: !MarkerAt(s, q)
    ensures Search(s) == Some(Match(i, open, close))
  {
    assert MatchesAt(s, i);
    var m := Search(s).value;
    assert m.start == i;
    BraceAfterSpace(s, i + |Marker|, m.open, open);
  }

  /** Past the marker, the `{` that ends the run of whitespace is unique. */
  lemma BraceAfterSpace(s: string, k: nat, o1: nat, o2: nat)
    requires k <= o1 < |s| && k <= o2 < |s|
    requires AllSpace(s[k..o1]) && AllSpace(s[k..o2])
    requires s[o1] == '{' && s[o2] == '{'
    ensures o1 == o2
  {
    assert forall p | k <= p < o1 :: s[k..o1][p - k] == s[p];
    assert forall p | k <= p < o2 :: s[k..o2][p - k] == s[p];
  }

  /** A match at the start of the line after marker-free text is the one the
      search finds. */
  lemma FoundAfterNewline(before: string, rest: string, open: nat, close: nat)
    requires NoMarker(before)
    requires MatchesWith(rest, 0, open, close)
    requires forall p | open < p < close :: rest[p] != '}'
    ensures var i := |before| + 1;
      Search(before + "\n" + rest) == Some(Match(i, i + open, i + close))
  {
    var pre := before + "\n";
    var s := pre + rest;
    ShiftMatch(pre, rest, open, close);
    NoMarkerBeforeNewline(before, rest);
    SearchFinds(s, |pre|, |pre| + open, |pre| + close);
  }

  /** A directive as the prompt's instructions ask for it: the marker,
      whitespace, and a `{...}` object whose body holds no `}`. */
  function DirectiveLine(ws: string, body: string): string
  {
    Marker + ws + "{" + body + "}"
  }

  /** The search pattern matches a directive line at its start, with the
      whole `{...}` as the payload. */
  lemma DirectiveShape(ws: string, body: string)
    requires AllSpace(ws)
    requires '}' !in body
    ensures var d := DirectiveLine(ws, body);
      var open := |Marker| + |ws|;
      && MatchesWith(d, 0, open, |d| - 1)
      && (forall p | open < p < |d| - 1 :: d[p] != '}')
      && d[open..] == "{" + body + "}"
      && ('\n' !in ws && '\n' !in body ==> '\n' !in d)
  {
    var d := DirectiveLine(ws, body);
    assert '\n' !in Marker;
    var open := |Marker| + |ws|;
    assert d[..|Marker|] == Marker;
    assert d[|Marker|..open] == ws;
    forall p | open < p < |d| - 1 ensures d[p] != '}' {
      assert d[p] == body[p - open - 1];
    }
  }

  /** A match in `d` is a match in `pre + d`, shifted by `|pre|`. */
  lemma ShiftMatch(pre: string, d: string, open: nat, close: nat)
    requires MatchesWith(d, 0, open, close)
    requires forall p | open < p < close :: d[p] != '}'
    ensures MatchesWith(pre + d, |pre|, |pre| + open, |pre| + close)
    ensures forall p | |pre| + open < p < |pre| + close :: (pre + d)[p] != '}'
  {
    var s := pre + d;
    assert s[|pre|..|pre| + |Marker|] == d[..|Marker|];
    assert s[|pre| + |Marker|..|pre| + open] == d[|Marker|..open];
    forall p | |pre| + open < p < |pre| + close ensures s[p] != '}' {
      assert s[p] == d[p - |pre|];
    }
  }

  /** No marker starts within marker-free text or at the newline after it. */
  lemma NoMarkerBeforeNewline(before: string, rest: string)
    requires NoMarker(before)
    ensures forall q | 0 <= q < |before| + 1 :: !MarkerAt(before + "\n" + rest, q)
  {
    var s := before + "\n" + rest;
    forall q | 0 <= q < |before| + 1 ensures !MarkerAt(s, q) {
      if q + |Marker| <= |before| {
        assert s[q..q + |Marker|] == before[q..q + |Marker|];
        assert !MarkerAt(before, q);
      } else if q + |Marker| <= |s| {
        assert s[q..q + |Marker|][|before| - q] == '\n';
      }
    }
  }

  /** Text without a `{` never holds a directive. */
  lemma {:induction false} NoBraceNoMatch(s: string)
    requires '{' !in s
    ensures Search(s).None?
  {
    forall q, o: nat, c: nat | MatchesWith(s, q, o, c) ensures false {
    }
  }

  // ---------------------------------------------------------------------
  // Marker removal

  /** Removal never creates text before a kept newline-free prefix: whatever
      newline-free text the result starts with, the input starts with too. */
  lemma {:induction false} StripMarkersKeepsPrefix(t: string, w: string)
    requires |w| > 0 && '\n' !in w
    requires w <= StripMarkers(t)
    ensures w <= t
    decreases |t|
  {
    if t != [] {
      if MarkerAt(t, 0) {
        var u := t[LineEnd(t, |Marker|)..];
        NewlineFirst(u);
      } else if |w| > 1 {
        StripMarkersKeepsPrefix(t[1..], w[1..]);
      }
    }
  }

  /** `re.sub` leaves no marker behind: every occurrence is removed, and the
      removal never glues two pieces into a new one. */
  lemma {:induction false} StripMarkersRemovesAll(s: string)
    ensures NoMarker(StripMarkers(s))
    decreases |s|
  {
    if s == [] {
    } else if MarkerAt(s, 0) {
      StripMarkersRemovesAll(s[LineEnd(s, |Marker|)..]);
    } else {
      var rest := StripMarkers(s[1..]);
      StripMarkersRemovesAll(s[1..]);
      var r := [s[0]] + rest;
      forall i | 0 <= i <= |r| ensures !MarkerAt(r, i) {
        if i == 0 {
          if MarkerAt(r, 0) {
            assert Marker <= r;
            StripMarkersKeepsPrefix(s, Marker);
          }
        } else {
          assert !MarkerAt(rest, i - 1);
          if i + |Marker| <= |r| {
            assert r[i..i + |Marker|] == rest[i - 1..i - 1 + |Marker|];
          }
        }
      }
    }
  }

  /** Marker-free text passes through removal unchanged. */
  lemma {:induction false} NoMarkerUnchanged(s: string)
    requires NoMarker(s)
    ensures StripMarkers(s) == s
    decreases |s|
  {
    if s != [] {
      assert !MarkerAt(s, 0);
      NoMarkerSlice(s, 1, |s|);
      assert s[1..|s|] == s[1..];
      NoMarkerUnchanged(s[1..]);
    }
  }

  /** A slice of marker-free text is marker-free. */
  lemma NoMarkerSlice(s: string, lo: nat, hi: nat)
    requires lo <= hi <= |s|
    requires NoMarker(s)
    ensures NoMarker(s[lo..hi])
  {
    var t := s[lo..hi];
    forall i | 0 <= i <= |t| ensures !MarkerAt(t, i) {
      if i + |Marker| <= |t| {
        var u, v := t[i..i + |Marker|], s[lo + i..lo + i + |Marker|];
        forall j | 0 <= j < |Marker| ensures u[j] == v[j] {}
        assert !MarkerAt(s, lo + i);
      }
    }
  }

  /** Within one line, removal cuts the line at its first marker: `k` is the
      index of the first marker, or the line's length when it has none. */
  lemma {:induction false} StripMarkersOnLine(line: string, k: nat)
    requires '\n' !in line
    requires k <= |line|
    requires k == |line| || MarkerAt(line, k)
    requires forall j | 0 <= j < k :: !MarkerAt(line, j)
    ensures StripMarkers(line) == line[..k]
    decreases |line|
  {
    if line == [] {
    } else if k == 0 {
      assert MarkerAt(line, 0);
      var p := LineEnd(line, |Marker|);
    } else {
      assert !MarkerAt(line, 0);
      var tail := line[1..];
      forall j | 0 <= j <= |tail| ensures MarkerAt(tail, j) <==> MarkerAt(line, j + 1) {
        if j + 1 + |Marker| <= |line| {
          assert tail[j..j + |Marker|] == line[j + 1..j + 1 + |Marker|];
        }
      }
      assert forall c | c in tail :: c in line;
      StripMarkersOnLine(tail, k - 1);
      assert line[..k] == [line[0]] + tail[..k - 1];
    }
  }

  /** A text that starts with a newline keeps it: the marker does not start
      with one. */
  lemma NewlineFirst(u: string)
    requires u == [] || u[0] == '\n'
    ensures StripMarkers(u) == [] || StripMarkers(u)[0] == '\n'
    ensures u != [] ==> StripMarkers(u) == "\n" + StripMarkers(u[1..])
  {
    if u != [] {
      assert !MarkerAt(u, 0) by {
        assert |u| >= |Marker| ==> u[..|Marker|][0] == '\n';
      }
    }
  }

  /** The marker sits at the start of `a + "\n" + b` exactly when it sits at
      the start of `a`. */
  lemma MarkerAtFrontOfLine(a: string, b: string)
    ensures MarkerAt(a + "\n" + b, 0) <==> MarkerAt(a, 0)
  {
    var s := a + "\n" + b;
    if |a| >= |Marker| {
      assert s[..|Marker|] == a[..|Marker|];
    } else if |s| >= |Marker| {
      assert s[..|Marker|][|a|] == '\n';
    }
  }

  /** Searching for the end of a line inside `a` finds the same index in
      `a + "\n" + b`. */
  lemma LineEndInFirstLine(a: string, b: string, k: nat)
    requires k <= |a|
    ensures LineEnd(a + "\n" + b, k) == LineEnd(a, k)
  {
    var s := a + "\n" + b;
    assert forall j | k <= j < |a| :: s[j] == a[j];
    assert s[|a|] == '\n';
  }

  /** Removal works line by line: a newline is never removed, and no removed
      segment reaches past one. */
  lemma {:induction false} StripMarkersAcrossNewline(a: string, b: string)
    ensures StripMarkers(a + "\n" + b) == StripMarkers(a) + "\n" + StripMarkers(b)
    decreases |a|, 1
  {
    var s := a + "\n" + b;
    MarkerAtFrontOfLine(a, b);
    if a == [] {
      NewlineFirst(s);
      assert s[1..] == b;
    } else if MarkerAt(a, 0) {
      MarkerLineAcrossNewline(a, b);
    } else {
      var t := a[1..];
      assert s[1..] == t + "\n" + b;
      StripMarkersAcrossNewline(t, b);
      assert StripMarkers(s) == [s[0]] + StripMarkers(s[1..]);
      assert StripMarkers(a) == [a[0]] + StripMarkers(t);
    }
  }

  /** The case of `StripMarkersAcrossNewline` where `a` starts with the
      marker: the removed segment ends inside `a` or at the joining newline. */
  lemma {:induction false} MarkerLineAcrossNewline(a: string, b: string)
    requires MarkerAt(a, 0)
    ensures StripMarkers(a + "\n" + b) == StripMarkers(a) + "\n" + StripMarkers(b)
    decreases |a|, 0
  {
    var s := a + "\n" + b;
    MarkerAtFrontOfLine(a, b);
    var p := LineEnd(a, |Marker|);
    LineEndInFirstLine(a, b, |Marker|);
    DropFromFirstLine(a, b, p);
    StripMarkersAcrossNewline(a[p..], b);
  }

  lemma DropFromFirstLine(a: string, b: string, p: nat)
    requires p <= |a|
    ensures (a + "\n" + b)[p..] == a[p..] + "\n" + b
  {
  }

  /** A directive written on the last line of a reply, after marker-free
      text: the scan finds it and hands exactly its `{...}` to the parser. */
  lemma DirectiveOnLastLine(before: string, line: string, open: nat)
    requires NoMarker(before)
    requires |line| > 0 && MatchesWith(line, 0, open, |line| - 1)
    requires forall p | open < p < |line| - 1 :: line[p] != '}'
    ensures var i := |before| + 1;
      var m := Match(i, i + open, i + |line| - 1);
      && Search(before + "\n" + line) == Some(m)
      && Payload(before + "\n" + line, m) == line[open..]
  {
    FoundAfterNewline(before, line, open, |line| - 1);
    SuffixAfter(before + "\n", line, open);
  }

  /** A suffix of the last piece of a concatenation, located in the whole. */
  lemma SuffixAfter(pre: string, t: string, k: nat)
    requires k <= |t|
    ensures (pre + t)[|pre| + k..|pre| + |t|] == t[k..]
  {
  }

  /** Removing a marker line that ends the text leaves the text before it. */
  lemma LastLineRemoved(before: string, line: string)
    requires NoMarker(before) && IsStripped(before)
    requires MarkerAt(line, 0) && '\n' !in line
    ensures CleanReply(before + "\n" + line) == before
  {
    StripMarkersAcrossNewline(before, line);
    NoMarkerUnchanged(before);
    StripMarkersOnLine(line, 0);
    assert StripMarkers(before + "\n" + line) == before + ['\n'];
    StripIgnoresTrailingSpace(before, '\n');
    StripFixesStripped(before);
  }

  /** Removal stops at the first newline: when a directive's payload runs
      onto later lines, those lines stay in the text, in order. */
  lemma LaterLinesSurvive(before: string, line: string, rest: string)
    requires NoMarker(before) && NoMarker(rest)
    requires MarkerAt(line, 0) && '\n' !in line
    ensures StripMarkers(before + "\n" + line + "\n" + rest) == before + "\n" + "\n" + rest
  {
    var tail := line + "\n" + rest;
    assert before + "\n" + line + "\n" + rest == before + "\n" + tail;
    StripMarkersAcrossNewline(before, tail);
    MarkerLineThenRest(line, rest);
    NoMarkerUnchanged(before);
  }

  /** A marker line followed by marker-free lines loses only its own text. */
  lemma MarkerLineThenRest(line: string, rest: string)
    requires NoMarker(rest)
    requires MarkerAt(line, 0) && '\n' !in line
    ensures StripMarkers(line + "\n" + rest) == "\n" + rest
  {
    StripMarkersAcrossNewline(line, rest);
    StripMarkersOnLine(line, 0);
    NoMarkerUnchanged(rest);
  }

  // ---------------------------------------------------------------------
  // The handler's decision

  /** No match, no change: the reply is sent exactly as received and nothing
      is saved, even when it holds a marker that no `{...}` follows. */
  lemma NoDirectivePassesThrough(aiId: string, userId: string, response: string,
                                 parse: string -> Option<Json>, store: SaveRequest -> SaveReply)
    requires forall q | 0 <= q <= |response| :: !MatchesAt(response, q)
    ensures HandleReply(aiId, userId, response, parse, store) == Reply(response)
  {
  }

  /** A matched, parseable payload with a "content" key leads to exactly one
      save with that content and the payload's "importance" (3 only when the
      key is absent), and the reply is the cleaned text. */
  lemma SaveArguments(aiId: string, userId: string, response: string,
                      parse: string -> Option<Json>, store: SaveRequest -> SaveReply,
                      fields: map<string, Json>)
    requires Search(response).Some?
    requires parse(Payload(response, Search(response).value)) == Some(JObject(fields))
    requires "content" in fields
    ensures HandleReply(aiId, userId, response, parse, store)
         == SavedThenReply(
              SaveRequest(aiId, userId, fields["content"],
                          if "importance" in fields then fields["importance"] else JInt(3)),
              CleanReply(response))
  {
  }

  /** The save's answer is never looked at: the outcome, reply text included,
      is the same whether the store acknowledged, refused or failed. */
  lemma SaveResultIgnored(aiId: string, userId: string, response: string,
                          parse: string -> Option<Json>,
                          store1: SaveRequest -> SaveReply, store2: SaveRequest -> SaveReply)
    ensures HandleReply(aiId, userId, response, parse, store1)
         == HandleReply(aiId, userId, response, parse, store2)
  {
  }

  /** A payload that `json.loads` rejects, or whose value has no "content"
      key, raises before any save: nothing is saved and nothing is sent. */
  lemma MalformedPayloadRaises(aiId: string, userId: string, response: string,
                               parse: string -> Option<Json>, store: SaveRequest -> SaveReply)
    requires Search(response).Some?
    requires var parsed := parse(Payload(response, Search(response).value));
      parsed.None? || !parsed.value.JObject? || "content" !in parsed.value.fields
    ensures HandleReply(aiId, userId, response, parse, store) == Raised
  {
  }

  /** Whatever happens, a reply that is sent after a save carries no marker
      and no outer whitespace. */
  lemma SentReplyAfterSaveIsClean(aiId: string, userId: string, response: string,
                                  parse: string -> Option<Json>, store: SaveRequest -> SaveReply)
    ensures var o := HandleReply(aiId, userId, response, parse, store);
      o.SavedThenReply? ==> NoMarker(o.text) && IsStripped(o.text) && Search(response).Some?
  {
  }

  /** A reply whose last line is a directive with a parseable payload that
      has "content": one save with that content and the payload's importance
      (3 when absent), and the user is sent the text before the directive. */
  lemma DirectiveOnLastLineSaves(aiId: string, userId: string, before: string, line: string, open: nat,
                                 parse: string -> Option<Json>, store: SaveRequest -> SaveReply,
                                 fields: map<string, Json>)
    requires NoMarker(before) && IsStripped(before)
    requires |line| > 0 && MatchesWith(line, 0, open, |line| - 1) && '\n' !in line
    requires forall p | open < p < |line| - 1 :: line[p] != '}'
    requires parse(line[open..]) == Some(JObject(fields)) && "content" in fields
    ensures HandleReply(aiId, userId, before + "\n" + line, parse, store)
         == SavedThenReply(
              SaveRequest(aiId, userId, fields["content"],
                          if "importance" in fields then fields["importance"] else JInt(3)),
              before)
  {
    DirectiveOnLastLine(before, line, open);
    LastLineRemoved(before, line);
  }

  /** A marker that no `{` follows is not a directive: the reply, marker
      included, is sent as received and nothing is saved. */
  lemma BracelessMarkerKept(aiId: string, userId: string, before: string, after: string,
                            parse: string -> Option<Json>, store: SaveRequest -> SaveReply)
    requires '{' !in before && '{' !in after
    ensures var response := before + Marker + after;
      && MarkerAt(response, |before|)
      && HandleReply(aiId, userId, response, parse, store) == Reply(response)
  {
    var response := before + Marker + after;
    assert response[|before|..|before| + |Marker|] == Marker;
    assert '{' !in Marker;
    NoBraceNoMatch(response);
  }
}
