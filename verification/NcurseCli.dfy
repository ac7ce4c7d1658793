/** The client of ncurse_cli.c: splitting a dump into beacons, selecting one, and
    receiving and showing one.  Windows and keyboard are not modelled; a line the
    user types is an element of a given sequence. */
module NcurseCli {
  import opened CString
  import opened Memory
  import opened Wire
  import opened HttpResponses
  import opened Db

  const MAX_ENTRIES := 100
  const MAX_MAJOR_MINOR := 35
  const DATA_BUFF := 1024
  const CRLFCRLF: string := "\r\n\r\n"

  // ------------------------------------------------------------ split loop

  /** The beacons the loop of `showAllBeacons` finds from the cursor on.  `None`:
      it would follow a null pointer or leave the text. */
  function Split(text: string, begin: nat): Option<seq<string>>
    decreases |text| - begin
  {
    var end :- StrChr(text, '\r', begin + 2);
    if end + 2 > |text| then None
    else if StrChr(text, '\r', end + 2).None? then Some([text[begin + 2..end]])
    else
      var rest :- Split(text, end);
      Some([text[begin + 2..end]] + rest)
  }

  /** A dump of `ks` whose last line is closed by `close` instead of CRLF. */
  function Closed(ks: seq<string>, close: string): string
    requires ks != []
  {
    Dump(ks[..|ks| - 1]) + ks[|ks| - 1] + close
  }

  lemma ClosedUnfolds(ks: seq<string>, close: string)
    requires |ks| > 1
    ensures Closed(ks, close) == ks[0] + CRLF + Closed(ks[1..], close)
  {
    var front := ks[..|ks| - 1];
    assert front[1..] == ks[1..][..|ks[1..]| - 1];
    assert Dump(front) == ks[0] + CRLF + Dump(front[1..]);
  }

  lemma ClosedOne(k: string, close: string)
    ensures Closed([k], close) == k + close
  {
  }

  predicate CleanKeys(ks: seq<string>) {
    forall k | k in ks :: Free(k, '\r')
  }

  /** How a line may end for the loop to stop behind it. */
  predicate Stops(close: string) {
    |close| >= 2 && close[0] == '\r' && '\r' !in close[2..]
  }

  lemma FirstBeacon(text: string, begin: nat, k: string, rest: string)
    requires begin <= |text| && text[begin..] == CRLF + k + rest
    requires Free(k, '\r') && rest != "" && rest[0] == '\r'
    ensures StrChr(text, '\r', begin + 2) == Some(begin + 2 + |k|)
    ensures text[begin + 2..begin + 2 + |k|] == k && text[begin + 2 + |k|..] == rest
  {
    assert At(text, begin, CRLF + k + rest);
    AtSplit3(text, begin, CRLF, k, rest);
    StrChrBehind(text, '\r', begin + 2, k, rest);
  }

  lemma SplitLast(text: string, begin: nat, k: string, close: string)
    requires begin <= |text| && text[begin..] == CRLF + k + close
    requires Free(k, '\r') && Stops(close)
    ensures Split(text, begin) == Some([k])
  {
    hide StrChr;
    FirstBeacon(text, begin, k, close);
    assert text[begin + 2 + |k| + 2..] == close[2..];
    StrChrMisses(text, '\r', begin + 2 + |k| + 2);
  }

  lemma SplitMore(text: string, begin: nat, k: string, rest: string, ks: seq<string>)
    requires begin <= |text| && text[begin..] == CRLF + k + rest
    requires Free(k, '\r') && rest != "" && rest[0] == '\r'
    requires var end := begin + 2 + |k|;
      end + 2 <= |text| && StrChr(text, '\r', end + 2).Some? && Split(text, end) == Some(ks)
    ensures Split(text, begin) == Some([k] + ks)
  {
    hide StrChr;
    FirstBeacon(text, begin, k, rest);
  }

  /** The split loop returns the lines of a dump in order. */
  lemma {:induction false} SplitLaw(text: string, begin: nat, ks: seq<string>, close: string)
    requires begin <= |text| && ks != [] && CleanKeys(ks) && Stops(close)
    requires text[begin..] == CRLF + Closed(ks, close)
    ensures Split(text, begin) == Some(ks)
    decreases ks
  {
    hide StrChr, Closed, Split;
    var k := ks[0];
    assert k in ks;
    if |ks| == 1 {
      assert ks == [k];
      ClosedOne(k, close);
      assert CRLF + Closed(ks, close) == CRLF + k + close;
      SplitLast(text, begin, k, close);
    } else {
      ClosedUnfolds(ks, close);
      var end, rest := begin + 2 + |k|, CRLF + Closed(ks[1..], close);
      assert CRLF + Closed(ks, close) == CRLF + k + rest;
      FirstBeacon(text, begin, k, rest);
      MoreToCome(text, end, ks[1..], close);
      SplitLaw(text, end, ks[1..], close);
      SplitMore(text, begin, k, rest, ks[1..]);
      assert ks == [k] + ks[1..];
    }
  }

  lemma MoreToCome(text: string, end: nat, ks: seq<string>, close: string)
    requires end <= |text| && ks != [] && CleanKeys(ks) && Stops(close)
    requires text[end..] == CRLF + Closed(ks, close)
    ensures end + 2 <= |text| && StrChr(text, '\r', end + 2).Some?
  {
    hide StrChr, Closed;
    assert ks[0] in ks;
    if |ks| == 1 {
      assert ks == [ks[0]];
      ClosedOne(ks[0], close);
      assert CRLF + Closed(ks, close) == CRLF + ks[0] + close;
      FirstBeacon(text, end, ks[0], close);
    } else {
      ClosedUnfolds(ks, close);
      var rest := CRLF + Closed(ks[1..], close);
      assert CRLF + Closed(ks, close) == CRLF + ks[0] + rest;
      FirstBeacon(text, end, ks[0], rest);
    }
  }

  lemma DumpIsClosed(ks: seq<string>)
    requires ks != []
    ensures Dump(ks) == Closed(ks, CRLF)
  {
    var front, last := ks[..|ks| - 1], ks[|ks| - 1];
    assert ks == front + [last];
    DumpAppend(front, [last]);
    assert Dump([last]) == last + CRLF;
  }

  /** Splitting the whole body of a dump response yields the empty string and then
      exactly the keys, in order. */
  lemma FullBodySplit(keys: seq<string>)
    requires CleanKeys(keys)
    ensures Split(CRLFCRLF + Dump(keys), 0) == Some([""] + keys)
  {
    var ks := [""] + keys;
    assert ks[1..] == keys;
    DumpIsClosed(ks);
    assert CRLFCRLF + Dump(keys) == CRLF + Closed(ks, CRLF);
    assert (CRLFCRLF + Dump(keys))[0..] == CRLFCRLF + Dump(keys);
    SplitLaw(CRLFCRLF + Dump(keys), 0, ks, CRLF);
  }

  /** So the dump determines the keys and their order. */
  lemma DumpInjective(a: seq<string>, b: seq<string>)
    requires CleanKeys(a) && CleanKeys(b) && Dump(a) == Dump(b)
    ensures a == b
  {
    FullBodySplit(a);
    FullBodySplit(b);
    assert ([""] + a)[1..] == a && ([""] + b)[1..] == b;
  }

  /** The text `showAllBeacons` builds: Content-Length bytes of the parsed content,
      which starts with the four bytes CRLF CRLF, and then CRLF. */
  function HandedText(contentLength: nat, content: string): string
    requires contentLength <= |content|
  {
    content[..contentLength] + CRLF
  }

  /** What is left of the keys in the text that is actually split: the last four
      bytes of the body are missing. */
  function Displayed(keys: seq<string>): seq<string>
    requires keys != []
  {
    var front, last := keys[..|keys| - 1], keys[|keys| - 1];
    if |last| >= 2 then front + [last[..|last| - 2]] else front
  }

  lemma DumpBehindEmpty(front: seq<string>)
    ensures Dump([""] + front) == CRLF + Dump(front)
  {
    assert ([""] + front)[1..] == front;
  }

  /** The dump is cut inside its last key. */
  lemma CutInside(front: seq<string>, last: string)
    requires |last| >= 2
    ensures HandedText(|Dump(front + [last])|, CRLFCRLF + Dump(front + [last]))
            == CRLF + Closed([""] + front + [last[..|last| - 2]], CRLF)
  {
    var cut := last[..|last| - 2];
    var body := Dump(front);
    DumpAppend(front, [last]);
    assert Dump([last]) == last + CRLF;
    CutText(body, last);
    var ks := [""] + front + [cut];
    assert ks[..|ks| - 1] == [""] + front;
    DumpBehindEmpty(front);
  }

  lemma CutText(body: string, last: string)
    requires |last| >= 2
    ensures (CRLFCRLF + (body + (last + CRLF)))[..|body + (last + CRLF)|] + CRLF
            == CRLF + (CRLF + body + last[..|last| - 2] + CRLF)
  {
    var cut := last[..|last| - 2];
    assert (CRLFCRLF + (body + (last + CRLF)))[..|body + (last + CRLF)|] == CRLFCRLF + body + cut;
    assert CRLFCRLF == CRLF + CRLF;
  }

  /** The dump is cut before its last key, of `n` characters, `n < 2`. */
  lemma CutBefore(front: seq<string>, last: string)
    requires |last| < 2
    ensures HandedText(|Dump(front + [last])|, CRLFCRLF + Dump(front + [last]))
            == CRLF + Closed([""] + front, if |last| == 1 then "\r\r\n" else CRLF)
  {
    var ks := [""] + front;
    var body := Dump(front);
    DumpAppend(front, [last]);
    assert Dump([last]) == last + CRLF;
    DumpBehindEmpty(front);
    DumpIsClosed(ks);
    var open := Dump(ks[..|front|]) + ks[|front|];
    assert CRLF + body == open + CRLF;
    assert CRLFCRLF + (body + (last + CRLF)) == CRLF + (CRLF + body) + (last + CRLF);
    CutOff(open, last);
  }

  lemma CutOff(open: string, last: string)
    requires |last| < 2
    ensures |CRLF + (open + CRLF) + (last + CRLF)| - 4 == |CRLF + open| + |last|
    ensures (CRLF + (open + CRLF) + (last + CRLF))[..|CRLF + open| + |last|] + CRLF
            == CRLF + (open + (if |last| == 1 then "\r\r\n" else CRLF))
  {
    var all := CRLF + (open + CRLF) + (last + CRLF);
    if |last| == 1 {
      assert all[..|CRLF + open| + 1] == CRLF + open + "\r";
    } else {
      assert all[..|CRLF + open|] == CRLF + open;
    }
  }

  /** The exact law of the split the client performs: all keys survive except the
      last, which loses its last two characters, or disappears when it has fewer
      than two. */
  lemma HandedSplit(keys: seq<string>)
    requires keys != [] && CleanKeys(keys)
    ensures Split(HandedText(|Dump(keys)|, CRLFCRLF + Dump(keys)), 0) == Some([""] + Displayed(keys))
  {
    hide Closed, Split, Dump;
    var front, last := keys[..|keys| - 1], keys[|keys| - 1];
    assert keys == front + [last];
    var text := HandedText(|Dump(keys)|, CRLFCRLF + Dump(keys));
    assert text[0..] == text;
    assert last in keys && forall k | k in front :: k in keys;
    if |last| >= 2 {
      CutInside(front, last);
      assert [""] + front + [last[..|last| - 2]] == [""] + (front + [last[..|last| - 2]]);
      SplitLaw(text, 0, [""] + front + [last[..|last| - 2]], CRLF);
    } else {
      CutBefore(front, last);
      SplitLaw(text, 0, [""] + front, if |last| == 1 then "\r\r\n" else CRLF);
    }
  }

  /** One turn of the split loop. */
  lemma SplitStep(text: string, begin: nat)
    requires Split(text, begin).Some?
    ensures var found := StrChr(text, '\r', begin + 2);
      && found.Some? && begin + 2 <= found.value <= |text| - 2
      && var k := text[begin + 2..found.value];
      if StrChr(text, '\r', found.value + 2).None? then Split(text, begin).value == [k]
      else Split(text, found.value).Some? && Split(text, begin).value == [k] + Split(text, found.value).value
  {
  }

  /** The entries fit `temp_array`. */
  predicate TableHolds(entries: seq<string>) {
    |entries| <= MAX_ENTRIES && forall b | b in entries :: |b| < MAX_MAJOR_MINOR
  }

  /** The table holds a whole dump exactly when there are at most 99 keys of at most 34
      characters, and then the cut one too. */
  lemma TableHoldsExactly(keys: seq<string>)
    ensures TableHolds([""] + keys) <==> |keys| <= 99 && forall k | k in keys :: |k| <= 34
    ensures keys != [] && TableHolds([""] + keys) ==> TableHolds([""] + Displayed(keys))
  {
    assert forall k | k in keys :: k in [""] + keys;
    if keys != [] {
      assert forall k | k in keys[..|keys| - 1] :: k in keys;
    }
  }

  /** The split loop of `showAllBeacons`, with its table of 35-byte entries. */
  method SplitBeacons(content: string) returns (tempArray: array<string>, windowIndex: nat)
    requires Split(content, 0).Some? && TableHolds(Split(content, 0).value)
    ensures windowIndex <= tempArray.Length && tempArray[..windowIndex] == Split(content, 0).value
  {
    hide Split, StrChr;
    tempArray := new string[MAX_ENTRIES](_ => "");
    windowIndex := 0;
    var beaconBegin: nat := 0;
    var beaconEnd := Some(beaconBegin);
    ghost var all, left := Split(content, 0).value, Split(content, 0).value;
    while beaconEnd.Some?
      invariant windowIndex <= |all| && left == all[windowIndex..]
      invariant tempArray[..windowIndex] == all[..windowIndex]
      invariant if beaconEnd.Some? then Split(content, beaconBegin) == Some(left) else left == []
      decreases beaconEnd.Some?, |content| - beaconBegin
    {
      windowIndex := windowIndex + 1;
      SplitStep(content, beaconBegin);
      ghost var shown := tempArray[..windowIndex - 1];
      beaconBegin := beaconBegin + 2;
      beaconEnd := StrChr(content, '\r', beaconBegin);
      tempArray[windowIndex - 1] := content[beaconBegin..beaconEnd.value];
      assert tempArray[..windowIndex] == shown + [left[0]] == all[..windowIndex];
      assert all[windowIndex..] == left[1..];
      left := left[1..];
      beaconBegin := beaconEnd.value;
      if StrChr(content, '\r', beaconBegin + 2).None? {
        beaconEnd := None;
      }
    }
  }

  // ------------------------------------------------------------- selection

  /** `keyExistInServer`. */
  method KeyExistInServer(tempArray: array<string>, buffer: string, num: nat) returns (found: bool)
    requires num <= tempArray.Length
    ensures found <==> buffer in tempArray[..num]
  {
    for i := 0 to num
      invariant buffer !in tempArray[..i]
    {
      if tempArray[i] == buffer {
        return true;
      }
    }
    return false;
  }

  /** What the selection loop accepts: the empty entry cannot be chosen. */
  predicate Selectable(entries: seq<string>, line: string) {
    line != "" && line in entries
  }

  /** Line `i` is the first that can be selected. */
  ghost predicate FirstSelectable(entries: seq<string>, lines: seq<string>, i: int) {
    0 <= i < |lines| && Selectable(entries, lines[i]) && forall j | 0 <= j < i :: !Selectable(entries, lines[j])
  }

  /** The selection loop: lines are read until one is accepted; `None` when the
      user has typed all of `lines` without success. */
  method SelectBeacon(tempArray: array<string>, num: nat, lines: seq<string>) returns (selection: Option<string>)
    requires num <= tempArray.Length
    ensures selection.None? ==> forall l | l in lines :: !Selectable(tempArray[..num], l)
    ensures selection.Some? ==> exists i :: FirstSelectable(tempArray[..num], lines, i) && lines[i] == selection.value
  {
    var read, beaconSelection, size := 0, "", 0;
    var known := false;
    while size == 0 || !known
      invariant 0 <= read <= |lines|
      invariant size == |beaconSelection|
      invariant size != 0 ==> (known <==> beaconSelection in tempArray[..num])
      invariant size != 0 ==> read > 0 && beaconSelection == lines[read - 1]
      invariant forall j | 0 <= j < read - 1 :: !Selectable(tempArray[..num], lines[j])
      invariant size == 0 && read > 0 ==> lines[read - 1] == ""
      decreases |lines| - read
    {
      if read == |lines| {
        return None;
      }
      beaconSelection := lines[read];
      read := read + 1;
      size := |beaconSelection|;
      known := KeyExistInServer(tempArray, beaconSelection, num);
    }
    assert FirstSelectable(tempArray[..num], lines, read - 1);
    return Some(beaconSelection);
  }

  /** With the whole body split, what can be selected is exactly the non-empty keys. */
  lemma FullSelectionSound(keys: seq<string>, line: string)
    requires CleanKeys(keys)
    ensures var entries := Split(CRLFCRLF + Dump(keys), 0);
      entries.Some? && (Selectable(entries.value, line) <==> line != "" && line in keys)
  {
    FullBodySplit(keys);
    assert forall k | k in [""] + keys :: k == "" || k in keys;
  }

  /** With the text the client splits, only keys can be selected exactly when the
      last key has at most two characters or its truncation is itself a key. */
  lemma HandedSelectionSound(keys: seq<string>)
    requires keys != [] && CleanKeys(keys)
    ensures var last := keys[|keys| - 1];
      (forall line | Selectable([""] + Displayed(keys), line) :: line in keys)
      <==> |last| <= 2 || last[..|last| - 2] in keys
  {
    var front, last := keys[..|keys| - 1], keys[|keys| - 1];
    var entries := [""] + Displayed(keys);
    assert forall k | k in front :: k in keys;
    if |last| > 2 {
      var cut := last[..|last| - 2];
      assert Displayed(keys) == front + [cut];
      assert entries[|entries| - 1] == cut;
      assert Selectable(entries, cut);
      forall line | Selectable(entries, line) ensures line in front || line == cut {
      }
    } else {
      forall line | Selectable(entries, line) ensures line in front {
      }
    }
  }

  /** A dump of the single key "abc" offers "a", which is no key. */
  lemma HandedSelectionCounterexample()
    ensures Displayed(["abc"]) == ["a"]
    ensures Selectable([""] + Displayed(["abc"]), "a") && "a" !in ["abc"]
  {
    assert ["abc"][..0] == [] && "abc"[..1] == "a";
    assert ([""] + ["a"])[1] == "a";
  }

  /** `showAllBeacons`: the text is copied and closed with CRLF, split, and offered
      for selection. */
  method ShowAllBeacons(http: HttpResponse, lines: seq<string>) returns (selection: Option<string>, beacons: nat)
    requires http.OwnsStrings() && http.content != null && NUL !in http.content.text
    requires 0 <= StrToL(http.contentLength.text) <= |http.content.text|
    requires var split := Split(HandedText(StrToL(http.contentLength.text), http.content.text), 0);
      split.Some? && TableHolds(split.value)
    ensures var entries := Split(HandedText(StrToL(http.contentLength.text), http.content.text), 0).value;
      && beacons == |entries|
      && (selection.Some? ==> exists i :: FirstSelectable(entries, lines, i) && lines[i] == selection.value)
      && (selection.None? ==> forall l | l in lines :: !Selectable(entries, l))
  {
    hide Split, StrToL, Selectable;
    var contentLength := StrToL(http.contentLength.Read());
    var got := http.content.Read();
    var content := new char[contentLength + 3](_ => NUL);
    CopyInto(content, 0, got[..contentLength]);
    CopyInto(content, contentLength, CRLF);
    content[contentLength + 2] := NUL;
    ghost var handed := HandedText(contentLength, got);
    assert content[..contentLength + 2] == content[..contentLength] + content[contentLength..contentLength + 2];
    assert content[..][0..contentLength + 2] == handed;
    StrLenAt(content[..], 0, handed);
    var tempArray;
    tempArray, beacons := SplitBeacons(CStr(content[..], 0));
    selection := SelectBeacon(tempArray, beacons, lines);
  }

  // -------------------------------------------------- receiving a response

  /** What `dc_read` leaves in the buffer: the new bytes over the old ones. */
  function Overwritten(data: string, chunk: string): string
    requires |chunk| <= |data|
  {
    chunk + data[|chunk|..]
  }

  function Zeros(n: nat): string { seq(n, _ => NUL) }

  /** `strlen` from `p` on stops inside the buffer. */
  predicate Terminates(data: string, p: nat) {
    p <= |data| && NUL in data[p..]
  }

  /** The Content-Length of the response in the buffer. */
  function LengthIn(data: string): Option<int> {
    var (r, _) :- ParseHead(data);
    Some(StrToL(r.contentLength))
  }

  /** The buffer can be checked after a read of `len` bytes: the head parses, the
      content behind it ends inside the buffer, `data[len - content_length]` is one
      of the bytes read or the next, and the string there ends inside the buffer. */
  predicate Checkable(data: string, len: nat) {
    && len <= |data| && LengthIn(data).Some? && Terminates(data, ParseHead(data).value.1)
    && 0 <= LengthIn(data).value <= len && Terminates(data, len - LengthIn(data).value)
  }

  /** The test of `getOneBeacon`. */
  predicate ValueComplete(data: string, len: nat)
    requires Checkable(data, len)
  {
    StrLen(data, len - LengthIn(data).value) + 1 == LengthIn(data).value
  }

  /** The test of `getAllListOfBeacons`. */
  predicate DumpComplete(data: string, len: nat)
    requires Checkable(data, len)
  {
    StrLen(data, len - LengthIn(data).value) == LengthIn(data).value
  }

  lemma LengthArrives(data: string, r: Response)
    requires CleanHead(r) && |StatusLine(r)| <= STAT_LINE_BUFF && At(data, 0, Head(r) + "\r")
    ensures ParseHead(data) == Some((Returned(r, ""), |Head(r)|))
    ensures LengthIn(data) == Some(StrToL(r.contentLength))
    ensures ParseResponse(data) == Some(Returned(r, CStr(data, |Head(r)|)))
  {
    hide ParseHead, StrToL, StrLen;
    HeadRoundTrip(data, r);
  }

  /** A buffer that can be checked parses. */
  lemma CheckableParses(data: string, len: nat)
    requires Checkable(data, len)
    ensures ParseResponse(data).Some? && LengthIn(data) == Some(StrToL(ParseResponse(data).value.contentLength))
  {
    hide ParseHead, StrToL, StrLen;
  }

  /** The head has arrived once the '\r' of its last line has. */
  lemma HeadArrives(r: Response, n: nat, rest: string)
    requires |Head(r)| + 1 <= n <= |WireOf(r)| && Render(r) <= WireOf(r)
    ensures At(WireOf(r)[..n] + rest, 0, Head(r) + "\r")
  {
    var data := WireOf(r)[..n] + rest;
    assert Render(r) == Head(r) + "\r" + ("\n" + CRLF + r.content);
    assert data[..|Head(r)| + 1] == Render(r)[..|Head(r)| + 1] == Head(r) + "\r";
  }

  /** For a stored value the test of `getOneBeacon` on a zero-filled buffer holds
      exactly when the whole response has arrived, and then `content_start` is the
      first byte of the body. */
  lemma ValueCheckExact(r: Response, n: nat)
    requires CleanHead(r) && |StatusLine(r)| <= STAT_LINE_BUFF && NUL !in r.content
    requires StrToL(r.contentLength) == |r.content| + 1
    requires |Head(r)| + 1 <= n && |r.content| + 1 <= n <= |WireOf(r)| <= DATA_BUFF
    ensures var data := Overwritten(Zeros(DATA_BUFF), WireOf(r)[..n]);
      && Checkable(data, n)
      && (ValueComplete(data, n) <==> n == |WireOf(r)|)
      && (n == |WireOf(r)| ==> n - LengthIn(data).value == |Head(r) + CRLFCRLF|
                               && CStr(data, n - LengthIn(data).value) == r.content)
  {
    hide ParseResponse, ParseHead, LengthIn, Head, ResponseArraySize, StrLen, StrToL, StatusLine, Terminates, WireOf;
    WireOfValue(r);
    HeadArrives(r, n, Zeros(DATA_BUFF)[n..]);
    LengthArrives(Overwritten(Zeros(DATA_BUFF), WireOf(r)[..n]), r);
    ValueStops(Render(r), |Head(r)|, |r.content| + 1, n);
    assert n == |WireOf(r)| ==> Render(r)[n - |r.content| - 1..] == r.content;
    ValueLength(Render(r), |r.content| + 1, n);
  }

  /** Both strings the client measures end inside its buffer. */
  lemma ValueStops(text: string, head: nat, length: nat, n: nat)
    requires head < n <= |text| + 1 <= DATA_BUFF && 1 <= length <= n
    ensures var data := Overwritten(Zeros(DATA_BUFF), (text + [NUL])[..n]);
      Terminates(data, head) && Terminates(data, n - length)
  {
    hide Terminates;
    var data := Overwritten(Zeros(DATA_BUFF), (text + [NUL])[..n]);
    var end := if n < DATA_BUFF then n else DATA_BUFF - 1;
    assert data[end] == NUL;
    StopsAt(data, head, end);
    StopsAt(data, n - length, end);
  }

  /** What `strlen` measures over the last `length` bytes read. */
  lemma ValueLength(text: string, length: nat, n: nat)
    requires n <= |text| + 1 <= DATA_BUFF && 1 <= length <= n && NUL !in text
    ensures var data := Overwritten(Zeros(DATA_BUFF), (text + [NUL])[..n]);
      && StrLen(data, n - length) == (if n == |text| + 1 then length - 1 else length)
      && (n == |text| + 1 ==> CStr(data, n - length) == text[n - length..])
  {
    hide StrLen;
    var data := Overwritten(Zeros(DATA_BUFF), (text + [NUL])[..n]);
    var w := text[n - length..if n == |text| + 1 then n - 1 else n];
    assert data[n - length..n - length + |w|] == w;
    StrLenAt(data, n - length, w);
  }

  lemma StopsAt(data: string, p: nat, end: nat)
    requires p <= end < |data| && data[end] == NUL
    ensures Terminates(data, p)
  {
    assert data[p..][end - p] == NUL;
  }

  lemma WireOfValue(r: Response)
    requires CleanHead(r) && NUL !in r.content
    requires StrToL(r.contentLength) == |r.content| + 1
    ensures WireOf(r) == Render(r) + [NUL] && Render(r) == Head(r) + CRLFCRLF + r.content
    ensures NUL !in Render(r)
  {
    WireIsHeadAndBody(r);
    assert Render(r) == Head(r) + CRLFCRLF + r.content;
    HeadHasNoNul(r);
  }

  lemma HeadHasNoNul(r: Response)
    requires CleanHead(r)
    ensures NUL !in Head(r)
  {
    assert NUL !in StatusLine(r);
    assert NUL !in Line("Content-Length:", r.contentLength, "Content-Type:" + " " + r.contentType);
    assert NUL !in Line("Last-Modified:", r.lastModified,
                        Line("Content-Length:", r.contentLength, "Content-Type:" + " " + r.contentType));
  }

  /** For a dump the test of `getAllListOfBeacons` says nothing about completeness.
      However many bytes have arrived in its buffer, which nobody has cleared: the
      buffer can be checked exactly when some byte behind them is NUL, and then the
      test holds exactly when the first one is. */
  lemma DumpCheckIgnoresLength(r: Response, n: nat, stale: string)
    requires CleanHead(r) && |StatusLine(r)| <= STAT_LINE_BUFF && NUL !in r.content
    requires StrToL(r.contentLength) == |r.content| && |stale| == DATA_BUFF
    requires |Head(r)| + 1 <= n && |r.content| <= n <= |WireOf(r)| && n <= DATA_BUFF
    ensures var data := Overwritten(stale, WireOf(r)[..n]);
      && (Checkable(data, n) <==> NUL in stale[n..])
      && (Checkable(data, n) ==> (DumpComplete(data, n) <==> stale[n] == NUL))
  {
    hide ParseResponse, ParseHead, LengthIn, ResponseArraySize, StrToL, StatusLine, Head, StrLen, Terminates;
    WireOfDump(r);
    var (sent, rest) := (WireOf(r)[..n], stale[n..]);
    HeadArrives(r, n, rest);
    LengthArrives(sent + rest, r);
    StopsBehind(sent, |Head(r)|, rest);
    StopsBehind(sent, n - |r.content|, rest);
    if NUL in rest {
      StrLenOfPart(sent, n - |r.content|, rest);
    }
  }

  lemma WireOfDump(r: Response)
    requires CleanHead(r) && NUL !in r.content
    requires StrToL(r.contentLength) == |r.content|
    ensures WireOf(r) == Render(r) == Head(r) + CRLFCRLF + r.content
    ensures NUL !in WireOf(r)
  {
    WireIsHeadAndBody(r);
    HeadHasNoNul(r);
    assert Render(r) == Head(r) + CRLFCRLF + r.content;
  }

  /** Behind a text without NUL, `strlen` stops where the rest makes it stop. */
  lemma StopsBehind(sent: string, p: nat, rest: string)
    requires p <= |sent| && NUL !in sent
    ensures Terminates(sent + rest, p) <==> NUL in rest
  {
    assert (sent + rest)[p..] == sent[p..] + rest;
  }

  lemma StrLenOfPart(sent: string, p: nat, rest: string)
    requires p <= |sent| && NUL !in sent && rest != ""
    ensures StrLen(sent + rest, p) == |sent| - p <==> rest[0] == NUL
  {
    assert (sent + rest)[p..p + |sent[p..]|] == sent[p..];
    if rest[0] == NUL {
      StrLenAt(sent + rest, p, sent[p..]);
    } else {
      StrLenLonger(sent + rest, p, sent[p..]);
    }
  }

  lemma StrLenLonger(s: string, p: nat, w: string)
    requires At(s, p, w) && NUL !in w && p + |w| < |s| && s[p + |w|] != NUL
    ensures StrLen(s, p) > |w|
  {
    forall i | p <= i < p + |w| ensures s[i] != NUL {
      assert s[i] == s[p..p + |w|][i - p];
    }
  }

  /** The buffer when the read loop of `getOneBeacon` ends: at the first read after
      which the test holds, or when nothing more is read. */
  function AfterReads(data: string, chunks: seq<string>): string
    requires Readable(data, chunks)
    decreases chunks
  {
    if chunks == [] then data
    else
      var next := Overwritten(data, chunks[0]);
      if ValueComplete(next, |chunks[0]|) then next else AfterReads(next, chunks[1..])
  }

  /** Every read of the loop leaves a buffer that can be checked. */
  predicate Readable(data: string, chunks: seq<string>)
    decreases chunks
  {
    chunks == [] ||
    (|chunks[0]| <= |data|
     && var next := Overwritten(data, chunks[0]);
     Checkable(next, |chunks[0]|) && (ValueComplete(next, |chunks[0]|) || Readable(next, chunks[1..])))
  }

  /** The read loop of `getOneBeacon` and the parse that follows it. */
  method GetOneBeacon(chunks: seq<string>) returns (http: HttpResponse)
    requires Readable(Zeros(DATA_BUFF), chunks) && chunks != []
    ensures AllFresh(http) && http.OwnsStrings()
    ensures ParseResponse(AfterReads(Zeros(DATA_BUFF), chunks)) == Some(http.View())
  {
    hide ParseResponse, ParseHead, StrLen, StrToL, Terminates, LengthIn;
    var data := new char[DATA_BUFF](_ => NUL);
    assert data[..] == Zeros(DATA_BUFF);
    var i := 0;
    while i < |chunks|
      invariant 0 <= i <= |chunks|
      invariant Readable(data[..], chunks[i..])
      invariant AfterReads(data[..], chunks[i..]) == AfterReads(Zeros(DATA_BUFF), chunks)
      invariant i > 0 ==> ParseResponse(data[..]).Some?
    {
      var len := |chunks[i]|;
      ghost var was, left := data[..], chunks[i..];
      assert left[1..] == chunks[i + 1..];
      CopyInto(data, 0, chunks[i]);
      assert data[..] == Overwritten(was, chunks[i]);
      i := i + 1;
      CheckableParses(data[..], len);
      var response := ParseHttpResponse(data[..]);
      var contentLength := StrToL(response.contentLength.Read());
      var check := StrLen(data[..], len - contentLength) + 1;
      if check == contentLength {
        http := ParseHttpResponse(data[..]);
        return;
      }
    }
    http := ParseHttpResponse(data[..]);
  }

  // ------------------------------------------------------- how many reads

  /** The reads of a response that are as large as the buffer lets them be. */
  function ReadsOf(wire: string): seq<string>
    decreases |wire|
  {
    if |wire| <= DATA_BUFF then [wire] else [wire[..DATA_BUFF]] + ReadsOf(wire[DATA_BUFF..])
  }

  /** They are the response, none is empty unless it is, and only the last is not full. */
  lemma {:induction false} ReadsDeliver(wire: string)
    ensures Joined(ReadsOf(wire)) == wire && ReadsOf(wire) != []
    ensures forall i | 0 <= i < |ReadsOf(wire)| :: |ReadsOf(wire)[i]| <= 1024
    ensures forall i | 0 <= i < |ReadsOf(wire)| - 1 :: |ReadsOf(wire)[i]| == 1024
    decreases |wire|
  {
    if |wire| <= DATA_BUFF {
      assert ReadsOf(wire)[1..] == [];
    } else {
      ReadsDeliver(wire[DATA_BUFF..]);
      assert ReadsOf(wire)[1..] == ReadsOf(wire[DATA_BUFF..]);
    }
  }

  /** What `strchr` finds among the bytes read it finds in the whole response. */
  lemma StrChrAgrees(read: string, wire: string, c: char, from: nat)
    requires read <= wire && c != NUL && |read| <= DATA_BUFF
    ensures var r := StrChr(Overwritten(Zeros(DATA_BUFF), read), c, from);
      r.Some? ==> r.value < |read| && StrChr(wire, c, from) == r
  {
    var data := Overwritten(Zeros(DATA_BUFF), read);
    StrChrHits(data, c, from);
    if StrChr(data, c, from).Some? {
      var i := StrChr(data, c, from).value;
      assert i < |read| && forall j | from <= j <= i :: data[j] == read[j] == wire[j];
      HitIsStrChr(wire, c, from, i);
    }
  }

  lemma LineAgrees(read: string, wire: string, p: nat)
    requires read <= wire && |read| <= DATA_BUFF
    ensures var line := ParseResponseLine(Overwritten(Zeros(DATA_BUFF), read), p);
      line.Some? ==> line.value.1 < |read| && ParseResponseLine(wire, p) == line
  {
    hide StrChr;
    var data := Overwritten(Zeros(DATA_BUFF), read);
    StrChrAgrees(read, wire, ' ', p);
    var space := StrChr(data, ' ', p);
    if space.Some? {
      StrChrAgrees(read, wire, '\r', space.value + 1);
      var end := StrChr(data, '\r', space.value + 1);
      assert end.Some? ==> data[space.value + 1..end.value] == read[space.value + 1..end.value]
                           == wire[space.value + 1..end.value];
    }
  }

  lemma LinesAgree(read: string, wire: string, p: nat)
    requires read <= wire && |read| <= DATA_BUFF
    ensures var lines := ParseResponseLines(Overwritten(Zeros(DATA_BUFF), read), p);
      lines.Some? ==> lines.value.1 < |read| && ParseResponseLines(wire, p) == lines
  {
    hide ParseResponseLine;
    var data := Overwritten(Zeros(DATA_BUFF), read);
    if ParseResponseLines(data, p).Some? {
      LineAgrees(read, wire, p);
      var p1 := ParseResponseLine(data, p).value.1;
      LineAgrees(read, wire, p1);
      var p2 := ParseResponseLine(data, p1).value.1;
      LineAgrees(read, wire, p2);
      var p3 := ParseResponseLine(data, p2).value.1;
      LineAgrees(read, wire, p3);
      LineAgrees(read, wire, ParseResponseLine(data, p3).value.1);
    }
  }

  /** A first read parses only if it holds the whole head. */
  lemma HeadIsNeeded(r: Response, read: string)
    requires CleanHead(r) && read <= WireOf(r) && |read| <= DATA_BUFF && At(WireOf(r), 0, Head(r) + "\r")
    requires ParseHead(Overwritten(Zeros(DATA_BUFF), read)).Some?
    ensures |Head(r)| < |read|
  {
    hide StrChr, ParseStatusLine, ParseResponseLines, WireOf, StatusLine, Headers;
    var (data, wire) := (Overwritten(Zeros(DATA_BUFF), read), WireOf(r));
    AtSplit3(wire, 0, StatusLine(r), Headers(r), "\r");
    StatusLineIsFirstLine(wire, r);
    HeadersRoundTrip(wire, r);
    StrChrAgrees(read, wire, '\n', 0);
    LinesAgree(read, wire, StrChr(data, '\n', 0).value + 1);
  }

  /** The test of `getOneBeacon` can hold only behind a read that ends in NUL. */
  lemma CompleteEndsInNul(data: string, chunk: string)
    requires |chunk| <= |data| && Checkable(Overwritten(data, chunk), |chunk|)
    requires ValueComplete(Overwritten(data, chunk), |chunk|)
    ensures NUL in chunk
  {
    hide LengthIn, Terminates;
    assert Overwritten(data, chunk)[|chunk| - 1] == chunk[|chunk| - 1];
  }

  lemma BareTextDoesNotParse(w: string, rest: string)
    requires ' ' !in w
    ensures ParseHead(w + [NUL] + rest).None?
  {
    hide ParseResponseLines, StrChr;
    var data := w + [NUL] + rest;
    if StrChr(data, '\n', 0).Some? {
      var lineEnd := StrChr(data, '\n', 0).value;
      StrChrHits(data, '\n', 0);
      assert data[|w|] == NUL;
      assert data[..lineEnd + 1] == w[..lineEnd + 1];
      StrChrMisses(data[..lineEnd + 1], ' ', 0);
    }
  }

  lemma BareReadFails(data: string, chunk: string, w: string)
    requires chunk == w + [NUL] && |chunk| <= |data| && ' ' !in w
    ensures !Checkable(Overwritten(data, chunk), |chunk|)
  {
    BareTextDoesNotParse(w, data[|chunk|..]);
  }

  lemma JoinedShrinks(chunks: seq<string>, w: string)
    requires |chunks| > 1 && "" !in chunks && Joined(chunks) == w + [NUL]
    ensures var rest := chunks[1..];
      && "" !in rest && |chunks[0]| <= |w| && w[..|chunks[0]|] == chunks[0]
      && Joined(rest) == w[|chunks[0]|..] + [NUL]
  {
    assert chunks[1] in chunks;
    assert Joined(chunks[1..]) == chunks[1] + Joined(chunks[1..][1..]);
    assert (w + [NUL])[|chunks[0]|..] == Joined(chunks[1..]);
  }

  /** No series of reads that delivers nothing but text without a space gets the loop
      to its end: the last of them does not parse. */
  lemma {:induction false} BareReadsFail(data: string, chunks: seq<string>, w: string)
    requires "" !in chunks && chunks != [] && Joined(chunks) == w + [NUL]
    requires ' ' !in w && NUL !in w
    ensures !Readable(data, chunks)
    decreases chunks
  {
    hide Checkable, ValueComplete, Terminates, ParseHead;
    if |chunks| == 1 {
      assert chunks[1..] == [] && chunks[0] == w + [NUL];
      if |chunks[0]| <= |data| {
        BareReadFails(data, chunks[0], w);
      }
    } else {
      JoinedShrinks(chunks, w);
      if Readable(data, chunks) {
        assert forall c | c in chunks[0] :: c in w;
        if ValueComplete(Overwritten(data, chunks[0]), |chunks[0]|) {
          CompleteEndsInNul(data, chunks[0]);
        }
        BareReadsFail(Overwritten(data, chunks[0]), chunks[1..], w[|chunks[0]|..]);
      }
    }
  }

  /** A response that fits the buffer is read whole by one read. */
  lemma OneReadIsWhole(r: Response)
    requires CleanHead(r) && |StatusLine(r)| <= STAT_LINE_BUFF && NUL !in r.content
    requires StrToL(r.contentLength) == |r.content| + 1 && |WireOf(r)| <= DATA_BUFF
    ensures Readable(Zeros(DATA_BUFF), [WireOf(r)])
    ensures AfterReads(Zeros(DATA_BUFF), [WireOf(r)]) == Overwritten(Zeros(DATA_BUFF), WireOf(r))
  {
    hide ParseHead, LengthIn, Head, WireOf, StrLen, StrToL, StatusLine, Checkable, ValueComplete;
    WireOfValue(r);
    ValueCheckExact(r, |WireOf(r)|);
    assert WireOf(r)[..|WireOf(r)|] == WireOf(r);
  }

  lemma FullReadFails(data: string, chunk: string)
    requires |chunk| == |data| && NUL !in chunk
    ensures !Checkable(Overwritten(data, chunk), |chunk|)
  {
    hide LengthIn, ParseHead, Terminates;
    assert Overwritten(data, chunk) == chunk;
    NeverStops(chunk);
  }

  lemma NeverStops(data: string)
    requires NUL !in data
    ensures forall p :: !Terminates(data, p)
  {
  }

  /** With reads as large as they can be, the loop of `getOneBeacon` gets through a
      value or a page exactly when the response fits the buffer; a longer one fills
      it and leaves `strlen` no end. */
  lemma FullReadsExact(r: Response)
    requires CleanHead(r) && |StatusLine(r)| <= STAT_LINE_BUFF && NUL !in r.content
    requires StrToL(r.contentLength) == |r.content| + 1
    ensures Readable(Zeros(DATA_BUFF), ReadsOf(WireOf(r))) <==> |WireOf(r)| <= 1024
    ensures |WireOf(r)| <= DATA_BUFF ==>
      AfterReads(Zeros(DATA_BUFF), ReadsOf(WireOf(r))) == Overwritten(Zeros(DATA_BUFF), WireOf(r))
  {
    hide WireOf, Head, Checkable, ValueComplete, StatusLine, StrToL;
    WireOfValue(r);
    if |WireOf(r)| <= DATA_BUFF {
      OneReadIsWhole(r);
    } else {
      var first := WireOf(r)[..DATA_BUFF];
      assert first == Render(r)[..DATA_BUFF];
      FullReadFails(Zeros(DATA_BUFF), first);
    }
  }

  /** Any value response cut in two: the loop gets through exactly when the first part
      holds the whole head and at least Content-Length bytes, and the second, over the
      start of the first, can be checked as a response of its own. */
  lemma CutInTwoExact(r: Response, n: nat)
    requires CleanHead(r) && |StatusLine(r)| <= STAT_LINE_BUFF && NUL !in r.content
    requires StrToL(r.contentLength) == |r.content| + 1 && 0 < n < |WireOf(r)| <= DATA_BUFF
    ensures var (a, b) := (WireOf(r)[..n], WireOf(r)[n..]);
      Readable(Zeros(DATA_BUFF), [a, b]) <==>
        |Head(r)| < n && |r.content| < n && Checkable(Overwritten(Overwritten(Zeros(DATA_BUFF), a), b), |b|)
  {
    hide WireOf, Head, ValueComplete, StatusLine, StrToL, Render, Terminates, ParseHead, Checkable;
    WireOfValue(r);
    var (a, b) := (WireOf(r)[..n], WireOf(r)[n..]);
    assert [a, b][1..] == [b];
    if |Head(r)| < n && |r.content| < n {
      ValueCheckExact(r, n);
      OneMoreRead(Overwritten(Zeros(DATA_BUFF), a), b);
    } else {
      PartIsShort(r, n);
    }
  }

  lemma OneMoreRead(data: string, chunk: string)
    requires |chunk| <= |data|
    ensures Readable(data, [chunk]) <==> Checkable(Overwritten(data, chunk), |chunk|)
  {
    assert [chunk][1..] == [];
    assert Readable(Overwritten(data, chunk), []);
  }

  lemma PartIsShort(r: Response, n: nat)
    requires CleanHead(r) && |StatusLine(r)| <= STAT_LINE_BUFF && NUL !in r.content
    requires StrToL(r.contentLength) == |r.content| + 1 && n < |WireOf(r)| <= DATA_BUFF
    requires n <= |Head(r)| || n <= |r.content|
    ensures !Checkable(Overwritten(Zeros(DATA_BUFF), WireOf(r)[..n]), n)
  {
    hide WireOf, Head, StatusLine, StrToL, Render, Terminates, ParseHead;
    WireOfValue(r);
    if ParseHead(Overwritten(Zeros(DATA_BUFF), WireOf(r)[..n])).Some? {
      HeadArrives(r, |Head(r)| + 1, "");
      assert WireOf(r)[..|Head(r)| + 1] + "" == WireOf(r)[..|Head(r)| + 1];
      assert At(WireOf(r), 0, Head(r) + "\r");
      HeadIsNeeded(r, WireOf(r)[..n]);
      HeadArrives(r, n, Zeros(DATA_BUFF)[n..]);
      LengthArrives(Overwritten(Zeros(DATA_BUFF), WireOf(r)[..n]), r);
    }
  }

  /** The bytes behind the head, as far as they are missing. */
  lemma TailIsBare(r: Response, read: string)
    requires CleanHead(r) && ' ' !in r.content && NUL !in r.content
    requires StrToL(r.contentLength) == |r.content| + 1
    requires read <= WireOf(r) && |Head(r)| < |read| < |WireOf(r)|
    ensures var w := Render(r)[|read|..];
      ' ' !in w && NUL !in w && WireOf(r)[|read|..] == w + [NUL] && NUL !in read
  {
    hide Head, WireOf, StrToL;
    WireOfValue(r);
    var body := CRLFCRLF + r.content;
    assert Render(r) == Head(r) + body;
    assert Render(r)[|read|..] == body[|read| - |Head(r)|..];
    assert forall c | c in body :: c in CRLFCRLF || c in r.content;
    assert read == Render(r)[..|read|];
  }

  /** However the bytes of a value without a space are divided into reads, the loop
      gets through exactly when they come in one read that fits the buffer. */
  lemma ValueReadsExact(r: Response, chunks: seq<string>)
    requires CleanHead(r) && |StatusLine(r)| <= STAT_LINE_BUFF && ' ' !in r.content && NUL !in r.content
    requires StrToL(r.contentLength) == |r.content| + 1
    requires Joined(chunks) == WireOf(r) && "" !in chunks
    ensures Readable(Zeros(DATA_BUFF), chunks) <==> |chunks| == 1 && |WireOf(r)| <= 1024
  {
    hide WireOf, Head, Checkable, ValueComplete, StatusLine, StrToL, Readable;
    WireOfValue(r);
    if |chunks| == 1 {
      JoinedOne(chunks);
      if |WireOf(r)| <= DATA_BUFF {
        OneReadIsWhole(r);
      } else {
        TooLong(WireOf(r));
      }
    } else {
      CutReadsFail(r, chunks);
    }
  }

  lemma TooLong(wire: string)
    requires |wire| > DATA_BUFF
    ensures !Readable(Zeros(DATA_BUFF), [wire])
  {
  }

  lemma CutReadsFail(r: Response, chunks: seq<string>)
    requires CleanHead(r) && |StatusLine(r)| <= STAT_LINE_BUFF && ' ' !in r.content && NUL !in r.content
    requires StrToL(r.contentLength) == |r.content| + 1
    requires Joined(chunks) == WireOf(r) && "" !in chunks && |chunks| != 1
    ensures !Readable(Zeros(DATA_BUFF), chunks)
  {
    hide WireOf, Head, ValueComplete, StatusLine, StrToL, Render, Terminates, ParseHead;
    WireOfValue(r);
    JoinedShrinks(chunks, Render(r));
    var first := chunks[0];
    assert first <= WireOf(r);
    if Readable(Zeros(DATA_BUFF), chunks) {
      HeadArrives(r, |Head(r)| + 1, "");
      HeadIsNeeded(r, first);
      TailIsBare(r, first);
      if ValueComplete(Overwritten(Zeros(DATA_BUFF), first), |first|) {
        CompleteEndsInNul(Zeros(DATA_BUFF), first);
      }
      BareReadsFail(Overwritten(Zeros(DATA_BUFF), first), chunks[1..], Render(r)[|first|..]);
    }
  }

  // ---------------------------------------------------------------- display

  /** What `showOneBeacon` displays of a parsed response. */
  function Shown(r: Response): Option<string> {
    var L := StrToL(r.contentLength);
    if 1 <= L <= |r.content| - 3 then Some(CStr(r.content[4..L + 3], 0)) else None
  }

  /** Whatever Content-Length says: one byte less of the body is displayed, whether that
      is the terminator of a value or the last byte of a dump. */
  lemma ShownExactly(r: Response, body: string)
    requires r.content == "\r\n\r\n" + body && NUL !in body
    ensures var L := StrToL(r.contentLength);
      Shown(r) == if 1 <= L <= |body| + 1 then Some(body[..L - 1]) else None
  {
    hide StrToL, StrLen;
    var L := StrToL(r.contentLength);
    if 1 <= L <= |body| + 1 {
      assert r.content[4..L + 3] == body[..L - 1];
      assert body[..L - 1][0..|body[..L - 1]|] == body[..L - 1];
      StrLenAt(body[..L - 1], 0, body[..L - 1]);
    }
  }

  /** `showOneBeacon` up to the display: the content behind its CRLF CRLF is copied
      without its last byte, and the terminator overwrites the CRLF put there. */
  method ShowOneBeacon(http: HttpResponse) returns (content: string)
    requires http.OwnsStrings() && Shown(http.View()).Some?
    ensures content == Shown(http.View()).value
  {
    var contentLength := StrToL(http.contentLength.Read());
    var buffer := new char[contentLength + 1](_ => NUL);
    var got := if http.content == null then "" else http.content.Read();
    CopyInto(buffer, 0, got[4..contentLength + 3]);
    CopyInto(buffer, contentLength - 1, CRLF);
    buffer[contentLength - 1] := NUL;
    assert buffer[..contentLength - 1] == got[4..contentLength + 3];
    StrLenBefore(buffer[..], contentLength - 1);
    content := CStr(buffer[..], 0);
  }

  lemma StrLenBefore(s: string, n: nat)
    requires n < |s| && s[n] == NUL
    ensures StrLen(s, 0) == StrLen(s[..n], 0)
  {
    var k := StrLen(s[..n], 0);
    assert s[..k] == s[..n][..k];
    StrLenAt(s, 0, s[..k]);
  }
}
