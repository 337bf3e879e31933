/**
 * Per-peer traffic counters read from the output of `wg show`
 * (CollectTraffic and parseTraffic in wireguard_go_ubuntu.go).
 *
 * The scan keeps a "current peer" cursor: a `peer:` line moves it, and a
 * `transfer:` line that follows a non-empty cursor records the received
 * and sent amounts for that peer, overwriting an earlier record.
 * The numeric part of an amount is kept as text: converting it to a byte
 * count (strconv.ParseFloat, the multiplication by the unit and the
 * truncation to uint64) is not part of this model.
 */
module Traffic {
  import opened Wrappers
  import opened GoStrings

  datatype Unit = B | KiB | MiB | GiB

  function UnitName(u: Unit): (r: string)
    ensures r != [] && NoSpace(r) && ',' !in r
  {
    match u
    case B => "B"
    case KiB => "KiB"
    case MiB => "MiB"
    case GiB => "GiB"
  }

  /** The unit switch of parseTraffic: exactly the four names B, KiB, MiB and GiB are accepted. */
  function ParseUnit(s: string): (r: Option<Unit>)
    ensures r.Some? ==> UnitName(r.value) == s
    ensures r.None? ==> forall u: Unit :: UnitName(u) != s
  {
    if s == "B" then Some(B)
    else if s == "KiB" then Some(KiB)
    else if s == "MiB" then Some(MiB)
    else if s == "GiB" then Some(GiB)
    else None
  }

  /** An amount as `wg show` prints it: the number's text and its unit. */
  datatype Amount = Amount(number: string, unit: Unit)

  datatype TrafficError = InvalidFormat | UnknownUnit

  /** parseTraffic: the text must have exactly two whitespace-separated fields, the second a known unit. */
  function ParseTraffic(s: string): (r: Result<Amount, TrafficError>)
    ensures r.Ok? <==> |Fields(s)| == 2 && ParseUnit(Fields(s)[1]).Some?
    ensures r.Ok? ==> Fields(s) == [r.value.number, UnitName(r.value.unit)]
    ensures r == Err(InvalidFormat) <==> |Fields(s)| != 2
  {
    var parts := Fields(s);
    if |parts| != 2 then Err(InvalidFormat)
    else
      match ParseUnit(parts[1])
      case None => Err(UnknownUnit)
      case Some(u) => Ok(Amount(parts[0], u))
  }

  /** An amount as `wg show` prints it: "<number> <unit>". */
  function Printed(a: Amount): string {
    a.number + " " + UnitName(a.unit)
  }

  /** The number's text is one word without a comma, as in "3.48". */
  predicate WellFormed(a: Amount) {
    a.number != [] && NoSpace(a.number) && ',' !in a.number
  }

  lemma PrintedShape(a: Amount)
    requires WellFormed(a)
    ensures Trimmed(Printed(a)) && ',' !in Printed(a)
  {
    var x := Printed(a);
    assert x[0] == a.number[0];
    assert x[|x| - 1] == UnitName(a.unit)[|UnitName(a.unit)| - 1];
  }

  /** parseTraffic reads a printed amount back as that number and unit. */
  lemma ParseTrafficOfPrinted(a: Amount)
    requires a.number != [] && NoSpace(a.number)
    ensures ParseTraffic(Printed(a)) == Ok(a)
  {
    var ws := [a.number, UnitName(a.unit)];
    assert Join(ws, " ") == Printed(a);
    FieldsOfWords(ws);
  }

  /** A third word after the unit (such as "received") makes parseTraffic reject the text. */
  lemma ParseTrafficRejectsThirdWord(a: Amount, word: string)
    requires a.number != [] && NoSpace(a.number)
    requires word != [] && NoSpace(word)
    ensures ParseTraffic(Printed(a) + " " + word) == Err(InvalidFormat)
  {
    var ws := [a.number, UnitName(a.unit), word];
    assert ws[1..] == [UnitName(a.unit), word];
    assert ws[1..][1..] == [word];
    assert Join(ws[1..], " ") == UnitName(a.unit) + " " + word;
    assert Join(ws, " ") == Printed(a) + " " + word;
    FieldsOfWords(ws);
  }

  // ------------------------------------------------------------------
  // The line scan of CollectTraffic
  // ------------------------------------------------------------------

  datatype PeerTraffic = PeerTraffic(rx: Amount, tx: Amount)

  /** What the loop of CollectTraffic carries from one line to the next. */
  datatype ScanState = ScanState(currentPeer: string, trafficData: map<string, PeerTraffic>)

  const PeerTag: string := "peer:"
  const TransferTag: string := "transfer:"

  /** The counters on a trimmed `transfer:` line, or None when the loop skips the line. */
  function TransferReading(line: string): Option<PeerTraffic> {
    var parts := Split(line, ',');
    if |parts| != 2 then None else ReadParts(parts[0], parts[1])
  }

  /** The counters of the two comma-separated parts of a transfer line: the tag comes off the first, "sent" off the second. */
  function ReadParts(first: string, second: string): Option<PeerTraffic> {
    var rx := ParseTraffic(TrimSpace(TrimPrefix(first, TransferTag)));
    var tx := ParseTraffic(TrimSpace(TrimSuffix(second, "sent")));
    if rx.Err? || tx.Err? then None else Some(PeerTraffic(rx.value, tx.value))
  }

  /** How the loop of CollectTraffic treats one line of `wg show`, after trimming it. */
  datatype LineKind =
    | PeerLine(name: string)                        // "peer: <key>": the cursor moves to <key>
    | TransferLine(reading: Option<PeerTraffic>)    // "transfer: ...": the counters, if they parse
    | OtherLine

  function Classify(raw: string): LineKind {
    var line := TrimSpace(raw);
    if HasPrefix(line, PeerTag) then PeerLine(TrimSpace(TrimPrefix(line, PeerTag)))
    else if HasPrefix(line, TransferTag) then TransferLine(TransferReading(line))
    else OtherLine
  }

  /** What one classified line does to the loop state. */
  function Apply(st: ScanState, kind: LineKind): ScanState {
    match kind
    case PeerLine(name) => st.(currentPeer := name)
    case TransferLine(reading) =>
      if st.currentPeer != "" && reading.Some? then
        st.(trafficData := st.trafficData[st.currentPeer := reading.value])
      else
        st
    case OtherLine => st
  }

  /** The loop state after the given classified lines, starting with no peer and no data. */
  function ScanKinds(kinds: seq<LineKind>): ScanState {
    if kinds == [] then ScanState("", map[])
    else Apply(ScanKinds(kinds[..|kinds| - 1]), kinds[|kinds| - 1])
  }

  /** Each line's classification, in order. */
  function Kinds(lines: seq<string>): (r: seq<LineKind>)
    ensures |r| == |lines|
    ensures forall j :: 0 <= j < |lines| ==> r[j] == Classify(lines[j])
  {
    seq(|lines|, j requires 0 <= j < |lines| => Classify(lines[j]))
  }

  lemma KindsSnoc(lines: seq<string>, line: string)
    ensures Kinds(lines + [line]) == Kinds(lines) + [Classify(line)]
  {
    var ls := lines + [line];
    var a := Kinds(ls);
    var b := Kinds(lines);
    assert forall j :: 0 <= j < |b| ==> ls[j] == lines[j];
    assert forall j :: 0 <= j < |b| ==> a[j] == b[j];
    assert ls[|lines|] == line;
    assert a == b + [a[|b|]];
  }

  /** The loop state after scanning the given lines of `wg show`. */
  function Scan(lines: seq<string>): ScanState {
    ScanKinds(Kinds(lines))
  }

  datatype CollectError = ShowFailed

  /**
   * CollectTraffic: the output of `wg show` (None when the command fails)
   * is split into lines and scanned; the result maps peer public keys to
   * their counters.
   */
  method CollectTraffic(wgShow: Option<string>) returns (r: Result<map<string, PeerTraffic>, CollectError>)
    ensures wgShow.None? <==> r.Err?
    ensures wgShow.Some? ==> r == Ok(Scan(Split(wgShow.value, '\n')).trafficData)
  {
    if wgShow.None? {
      return Err(ShowFailed);
    }
    var lines := Split(wgShow.value, '\n');
    ghost var kinds := Kinds(lines);
    var trafficData: map<string, PeerTraffic> := map[];
    var currentPeer := "";
    for i := 0 to |lines|
      invariant ScanState(currentPeer, trafficData) == ScanKinds(kinds[..i])
    {
      ScanStep(kinds, i);
      var line := TrimSpace(lines[i]);
      if HasPrefix(line, PeerTag) {
        currentPeer := TrimSpace(TrimPrefix(line, PeerTag));
      } else if HasPrefix(line, TransferTag) && currentPeer != "" {
        var reading := TransferReading(line);
        if reading.None? {
          continue;
        }
        trafficData := trafficData[currentPeer := reading.value];
      }
    }
    assert kinds[..|lines|] == kinds;
    return Ok(trafficData);
  }

  // ------------------------------------------------------------------
  // Properties of the scan
  // ------------------------------------------------------------------

  /**
   * Every peer in the result, and the cursor when it is set, was named by a
   * non-empty `peer:` line among the scanned lines: a transfer line before
   * any such line is never recorded.
   */
  lemma {:induction false} ScanKeysAreNamedPeers(kinds: seq<LineKind>)
    ensures forall k :: k in ScanKinds(kinds).trafficData ==>
              k != "" && PeerLine(k) in kinds
    ensures ScanKinds(kinds).currentPeer != "" ==> PeerLine(ScanKinds(kinds).currentPeer) in kinds
  {
    if kinds != [] {
      var init := kinds[..|kinds| - 1];
      var last := kinds[|kinds| - 1];
      ScanKeysAreNamedPeers(init);
      assert kinds == init + [last];
      var st := ScanKinds(init);
      var st' := ScanKinds(kinds);
      if !last.PeerLine? {
        forall k | k in st'.trafficData
          ensures k != "" && PeerLine(k) in kinds
        {
          if k !in st.trafficData {
            assert k == st.currentPeer;
          }
        }
      }
    }
  }

  /** Without a `peer:` line in the output, CollectTraffic records nothing. */
  lemma NoPeerLineNoTraffic(lines: seq<string>)
    requires forall j :: 0 <= j < |lines| ==> !Classify(lines[j]).PeerLine?
    ensures Scan(lines).trafficData == map[]
  {
    var kinds := Kinds(lines);
    assert forall j :: 0 <= j < |kinds| ==> !kinds[j].PeerLine?;
    ScanKeysAreNamedPeers(kinds);
    var d := ScanKinds(kinds).trafficData;
    assert forall k :: k !in d;
    assert d.Keys == {};
  }

  /** Scanning one more line is one more step of the loop. */
  lemma ScanSnoc(kinds: seq<LineKind>, kind: LineKind)
    ensures ScanKinds(kinds + [kind]) == Apply(ScanKinds(kinds), kind)
  {
    assert (kinds + [kind])[..|kinds|] == kinds;
  }

  /** The loop's step at line i: the state after i + 1 lines is one Apply away from the state after i. */
  lemma ScanStep(kinds: seq<LineKind>, i: nat)
    requires i < |kinds|
    ensures ScanKinds(kinds[..i + 1]) == Apply(ScanKinds(kinds[..i]), kinds[i])
  {
    assert kinds[..i + 1] == kinds[..i] + [kinds[i]];
    ScanSnoc(kinds[..i], kinds[i]);
  }

  /** The scan continued from a given state over more classified lines. */
  function ScanFrom(st: ScanState, kinds: seq<LineKind>): ScanState
    decreases |kinds|
  {
    if kinds == [] then st else ScanFrom(Apply(st, kinds[0]), kinds[1..])
  }

  lemma {:induction false} ScanKindsAppend(pre: seq<LineKind>, more: seq<LineKind>)
    ensures ScanKinds(pre + more) == ScanFrom(ScanKinds(pre), more)
    decreases |more|
  {
    if more == [] {
      assert pre + more == pre;
    } else {
      ScanSnoc(pre, more[0]);
      assert pre + more == (pre + [more[0]]) + more[1..];
      ScanKindsAppend(pre + [more[0]], more[1..]);
    }
  }

  /** Two loop states with the same cursor whose data differ at most at the cursor's entry (and not at all when no peer is set). */
  ghost predicate SameOffCursor(a: ScanState, b: ScanState) {
    && a.currentPeer == b.currentPeer
    && (a.currentPeer == "" ==> a.trafficData == b.trafficData)
    && (forall k :: k != a.currentPeer ==> (k in a.trafficData <==> k in b.trafficData))
    && (forall k :: k != a.currentPeer && k in a.trafficData ==> a.trafficData[k] == b.trafficData[k])
  }

  /** Lines that are not `peer:` lines keep the cursor, and write at most the cursor's entry. */
  lemma {:induction false} NonPeerLinesKeepSameOffCursor(a: ScanState, b: ScanState, mid: seq<LineKind>)
    requires SameOffCursor(a, b)
    requires forall j :: 0 <= j < |mid| ==> !mid[j].PeerLine?
    ensures SameOffCursor(ScanFrom(a, mid), ScanFrom(b, mid))
    decreases |mid|
  {
    if mid != [] {
      NonPeerLinesKeepSameOffCursor(Apply(a, mid[0]), Apply(b, mid[0]), mid[1..]);
    }
  }

  /**
   * A transfer line that is read successfully replaces whatever an earlier
   * transfer line recorded for the same peer, however many lines other than
   * `peer:` lines come between them.
   */
  lemma LaterTransferOverwrites(prefix: seq<LineKind>, t1: LineKind, mid: seq<LineKind>, t2: LineKind)
    requires t1.TransferLine?
    requires forall j :: 0 <= j < |mid| ==> !mid[j].PeerLine?
    requires t2.TransferLine? && t2.reading.Some?
    ensures ScanKinds(prefix + [t1] + mid + [t2]).trafficData == ScanKinds(prefix + mid + [t2]).trafficData
  {
    var st := ScanKinds(prefix);
    ScanSnoc(prefix, t1);
    ScanKindsAppend(prefix + [t1], mid);
    ScanKindsAppend(prefix, mid);
    TransferKeepsSameOffCursor(st, t1);
    NonPeerLinesKeepSameOffCursor(Apply(st, t1), st, mid);
    ScanSnoc(prefix + [t1] + mid, t2);
    ScanSnoc(prefix + mid, t2);
    ReadTransferAfterSameOffCursor(ScanFrom(Apply(st, t1), mid), ScanFrom(st, mid), t2);
  }

  lemma TransferKeepsSameOffCursor(st: ScanState, t: LineKind)
    requires t.TransferLine?
    ensures SameOffCursor(Apply(st, t), st)
  {
  }

  /** A transfer line that is read writes the cursor's entry, which is where two such states may differ. */
  lemma ReadTransferAfterSameOffCursor(a: ScanState, b: ScanState, t: LineKind)
    requires SameOffCursor(a, b)
    requires t.TransferLine? && t.reading.Some?
    ensures Apply(a, t).trafficData == Apply(b, t).trafficData
  {
    if a.currentPeer != "" {
      var d1 := Apply(a, t).trafficData;
      var d2 := Apply(b, t).trafficData;
      assert forall k :: k in d1 <==> k in d2;
      assert forall k :: k in d1 ==> d1[k] == d2[k];
    }
  }

  /**
   * A transfer line that is read is recorded under the peer of the last
   * `peer:` line before it, whatever other lines come between them.
   */
  lemma TransferRecordedUnderLastPeer(prefix: seq<LineKind>, k: string, mid: seq<LineKind>, t: LineKind)
    requires k != ""
    requires forall j :: 0 <= j < |mid| ==> !mid[j].PeerLine?
    requires t.TransferLine? && t.reading.Some?
    ensures var d := ScanKinds(prefix + [PeerLine(k)] + mid + [t]).trafficData;
      k in d && d[k] == t.reading.value
  {
    ScanSnoc(prefix, PeerLine(k));
    ScanKindsAppend(prefix + [PeerLine(k)], mid);
    NonPeerLinesKeepCursor(ScanKinds(prefix + [PeerLine(k)]), mid);
    ScanSnoc(prefix + [PeerLine(k)] + mid, t);
  }

  /** Lines other than `peer:` lines never move the cursor. */
  lemma {:induction false} NonPeerLinesKeepCursor(st: ScanState, mid: seq<LineKind>)
    requires forall j :: 0 <= j < |mid| ==> !mid[j].PeerLine?
    ensures ScanFrom(st, mid).currentPeer == st.currentPeer
    decreases |mid|
  {
    if mid != [] {
      NonPeerLinesKeepCursor(Apply(st, mid[0]), mid[1..]);
    }
  }

  // ------------------------------------------------------------------
  // Transfer lines
  // ------------------------------------------------------------------

  /** A transfer line in the form `wg show` prints it. */
  function ShowTransferLine(rx: Amount, tx: Amount): string {
    TransferTag + " " + Printed(rx) + " received, " + Printed(tx) + " sent"
  }

  /** A transfer line whose rx part carries only the amount, without the word "received". */
  function BareTransferLine(rx: Amount, tx: Amount): string {
    TransferTag + " " + Printed(rx) + ", " + Printed(tx) + " sent"
  }

  /** A line with exactly one comma splits into the text before it and the text after it. */
  lemma SplitAtComma(a: string, b: string)
    requires ',' !in a && ',' !in b
    ensures Split(a + [','] + b, ',') == [a, b]
  {
    SplitSeparated(a, b, ',');
    SplitNoSeparator(b, ',');
  }

  lemma CommaLine(a: string, y: string, q: string)
    ensures a + ", " + y + q == a + [','] + (" " + y + q)
  {
  }

  /** What TransferReading makes of a line with exactly two comma-separated parts. */
  lemma ReadingOfParts(line: string, a: string, b: string)
    requires Split(line, ',') == [a, b]
    ensures TransferReading(line) == ReadParts(a, b)
  {
  }

  /** The rx text CollectTraffic passes to parseTraffic for a first part "transfer: x". */
  lemma RxText(x: string)
    requires Trimmed(x)
    ensures TrimSpace(TrimPrefix(TransferTag + " " + x, TransferTag)) == x
  {
    assert TransferTag + " " + x == TransferTag + (" " + x);
    TrimPrefixAppend(TransferTag, " " + x);
    TrimSpacePadded(" ", x, "");
    assert " " + x + "" == " " + x;
  }

  /** The tx text CollectTraffic passes to parseTraffic for a second part " y sent". */
  lemma TxText(y: string)
    requires Trimmed(y)
    ensures TrimSpace(TrimSuffix(" " + y + " sent", "sent")) == y
  {
    assert " " + y + " sent" == (" " + y + " ") + "sent";
    TrimSuffixAppend(" " + y + " ", "sent");
    TrimSpacePadded(" ", y, " ");
  }

  lemma ReceivedIsOneWord()
    ensures "received" != [] && NoSpace("received")
  {
    var w := "received";
    forall i | 0 <= i < |w| ensures !IsSpace(w[i]) {
      assert 'a' <= w[i] <= 'z';
    }
  }

  /** The rx part of a printed transfer line keeps the word "received", which parseTraffic rejects. */
  lemma ReceivedAmount(rx: Amount)
    requires WellFormed(rx)
    ensures Trimmed(Printed(rx) + " received") && ',' !in Printed(rx) + " received"
    ensures ParseTraffic(Printed(rx) + " received") == Err(InvalidFormat)
  {
    var x := Printed(rx) + " received";
    PrintedShape(rx);
    ReceivedIsOneWord();
    assert x[|x| - 1] == 'd';
    assert x[0] == Printed(rx)[0];
    assert x == Printed(rx) + " " + "received";
    ParseTrafficRejectsThirdWord(rx, "received");
  }

  /**
   * The rx field keeps its word "received", so a transfer line in the form
   * `wg show` prints ("transfer: 3.48 MiB received, 33.46 MiB sent") fails
   * parseTraffic and is skipped.
   */
  lemma StandardTransferLineSkipped(rx: Amount, tx: Amount)
    requires WellFormed(rx) && WellFormed(tx)
    ensures TransferReading(ShowTransferLine(rx, tx)) == None
  {
    var x := Printed(rx) + " received";
    var y := Printed(tx);
    var a := TransferTag + " " + x;
    var b := " " + y + " sent";
    var line := ShowTransferLine(rx, tx);
    ReceivedAmount(rx);
    PrintedShape(tx);
    assert ',' !in a && ',' !in b;
    assert line == a + ", " + y + " sent";
    CommaLine(a, y, " sent");
    SplitAtComma(a, b);
    ReadingOfParts(line, a, b);
    RxText(x);
  }

  /** The two comma-separated parts of a transfer line whose rx part has exactly a number and a unit. */
  lemma BareTransferLineParts(rx: Amount, tx: Amount)
    requires WellFormed(rx) && WellFormed(tx)
    ensures Split(BareTransferLine(rx, tx), ',') == [TransferTag + " " + Printed(rx), " " + Printed(tx) + " sent"]
  {
    var a := TransferTag + " " + Printed(rx);
    var b := " " + Printed(tx) + " sent";
    PrintedShape(rx);
    PrintedShape(tx);
    assert ',' !in a && ',' !in b;
    CommaLine(a, Printed(tx), " sent");
    SplitAtComma(a, b);
  }

  /** Two transfer parts "transfer: x" and " y sent" whose amounts parseTraffic accepts are read as those amounts. */
  lemma ReadPartsOfAmounts(x: string, y: string, rx: Amount, tx: Amount)
    requires Trimmed(x) && Trimmed(y)
    requires ParseTraffic(x) == Ok(rx) && ParseTraffic(y) == Ok(tx)
    ensures ReadParts(TransferTag + " " + x, " " + y + " sent") == Some(PeerTraffic(rx, tx))
  {
    RxText(x);
    TxText(y);
  }

  /** A transfer line whose rx part has exactly a number and a unit is read as those two amounts. */
  lemma BareTransferLineRead(rx: Amount, tx: Amount)
    requires WellFormed(rx) && WellFormed(tx)
    ensures TransferReading(BareTransferLine(rx, tx)) == Some(PeerTraffic(rx, tx))
  {
    BareTransferLineParts(rx, tx);
    ReadingOfParts(BareTransferLine(rx, tx), TransferTag + " " + Printed(rx), " " + Printed(tx) + " sent");
    PrintedShape(rx);
    PrintedShape(tx);
    ParseTrafficOfPrinted(rx);
    ParseTrafficOfPrinted(tx);
    ReadPartsOfAmounts(Printed(rx), Printed(tx), rx, tx);
  }

  /** An indented transfer line in the form `wg show` prints it is classified as a transfer line that cannot be read. */
  lemma ShowTransferLineClassified(rx: Amount, tx: Amount)
    requires WellFormed(rx) && WellFormed(tx)
    ensures Classify("  " + ShowTransferLine(rx, tx)) == TransferLine(None)
  {
    var line := ShowTransferLine(rx, tx);
    assert line == TransferTag + (" " + Printed(rx) + " received, " + Printed(tx) + " sent");
    assert HasPrefix(line, TransferTag);
    assert line[0] == 't';
    assert !HasPrefix(line, PeerTag);
    assert Trimmed(line) by {
      assert line[|line| - 1] == 't';
    }
    TrimSpacePadded("  ", line, "");
    assert "  " + line + "" == "  " + line;
    StandardTransferLineSkipped(rx, tx);
  }

  /**
   * A transfer line in the form `wg show` prints it, wherever it appears in
   * the output, leaves the recorded counters as they were.
   */
  lemma ShowTransferLineRecordsNothing(before: seq<string>, rx: Amount, tx: Amount)
    requires WellFormed(rx) && WellFormed(tx)
    ensures Scan(before + ["  " + ShowTransferLine(rx, tx)]).trafficData == Scan(before).trafficData
  {
    var line := "  " + ShowTransferLine(rx, tx);
    ShowTransferLineClassified(rx, tx);
    KindsSnoc(before, line);
    ScanSnoc(Kinds(before), TransferLine(None));
  }
}
