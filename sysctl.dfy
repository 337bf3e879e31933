/**
 * The edits the WireGuard wrapper makes to /etc/sysctl.conf: WireguardStart
 * appends the IP-forwarding directive, and DropWireguard rewrites the file
 * without every line that mentions it. The file is a string; reading it
 * line by line follows bufio.ScanLines.
 */
module Sysctl {
  import opened Wrappers
  import opened GoStrings

  // The directive net.ipv4.ip_forward=1: the key's namespace, then the key and
  // its value, as two literals so that proofs about it unfold each half separately.
  const ForwardDirective: string := "net.ipv4." + "ip_forward=1"

  /** WireguardStart: the directive and a newline are appended to the file as it is. */
  function EnableForwarding(s: string): string {
    s + ForwardDirective + "\n"
  }

  /**
   * WireguardStart opens the file for appending: the old text stays as it
   * was, and the directive is in the file afterwards.
   */
  lemma EnableForwardingAppends(s: string)
    ensures HasPrefix(EnableForwarding(s), s)
    ensures Contains(EnableForwarding(s), ForwardDirective)
  {
    var d := ForwardDirective;
    assert EnableForwarding(s) == s + (d + "\n");
    assert EnableForwarding(s)[..|s|] == s;
    ContainsSelf(d);
    ContainsAppend(d, "\n", d);
    ContainsPrepend(s, d + "\n", d);
  }

  // ------------------------------------------------------------------
  // bufio.ScanLines
  // ------------------------------------------------------------------

  /** A line loses one trailing carriage return. */
  function DropCR(line: string): (r: string)
    ensures HasSuffix(line, "\r") ==> r + "\r" == line
    ensures !HasSuffix(line, "\r") ==> r == line
  {
    if line != [] && line[|line| - 1] == '\r' then line[..|line| - 1] else line
  }

  function DropCRs(lines: seq<string>): (r: seq<string>)
    ensures |r| == |lines|
    ensures forall i :: 0 <= i < |lines| ==> r[i] == DropCR(lines[i])
  {
    if lines == [] then [] else [DropCR(lines[0])] + DropCRs(lines[1..])
  }

  /**
   * The lines a bufio.Scanner yields: the text between newlines, each without
   * a final carriage return; a newline at the very end does not start another
   * line, and an empty file has no lines.
   */
  function ScannerLines(s: string): (r: seq<string>)
    ensures s == [] ==> r == []
    ensures forall i :: 0 <= i < |r| ==> '\n' !in r[i]
  {
    var pieces := Split(s, '\n');
    var last := |pieces| - 1;
    if pieces[last] == [] then DropCRs(pieces[..last]) else DropCRs(pieces)
  }

  /** The filter of DropWireguard: the lines that do not contain p, in their order. */
  function KeptLines(lines: seq<string>, p: string): seq<string> {
    if lines == [] then []
    else if Contains(lines[0], p) then KeptLines(lines[1..], p)
    else [lines[0]] + KeptLines(lines[1..], p)
  }

  /** A line is kept exactly when it is one of the scanned lines and does not contain p. */
  lemma {:induction false} KeptLinesMembers(lines: seq<string>, p: string)
    ensures forall x :: x in KeptLines(lines, p) <==> x in lines && !Contains(x, p)
  {
    if lines != [] {
      KeptLinesMembers(lines[1..], p);
      assert lines == [lines[0]] + lines[1..];
    }
  }

  /** The text DropWireguard writes back: the kept lines joined with newlines, plus a final newline. */
  function DroppedText(s: string): string {
    Join(KeptLines(ScannerLines(s), ForwardDirective), "\n") + "\n"
  }

  /**
   * DropWireguard's rewrite of sysctl.conf. `sysctl` is None when the file
   * cannot be opened; the program then exits and writes nothing.
   */
  method DropForwarding(sysctl: Option<string>) returns (written: Option<string>)
    ensures sysctl.None? <==> written.None?
    ensures sysctl.Some? ==> written == Some(DroppedText(sysctl.value))
  {
    if sysctl.None? {
      return None;
    }
    var scanned := ScannerLines(sysctl.value);
    var lines: seq<string> := [];
    for i := 0 to |scanned|
      invariant lines == KeptLines(scanned[..i], ForwardDirective)
    {
      KeptLinesPrefix(scanned, i, ForwardDirective);
      var line := scanned[i];
      if !Contains(line, ForwardDirective) {
        lines := lines + [line];
      }
    }
    assert scanned[..|scanned|] == scanned;
    return Some(Join(lines, "\n") + "\n");
  }

  lemma {:induction false} KeptLinesSnoc(lines: seq<string>, line: string, p: string)
    ensures KeptLines(lines + [line], p) == KeptLines(lines, p) + (if Contains(line, p) then [] else [line])
  {
    if lines != [] {
      assert (lines + [line])[1..] == lines[1..] + [line];
      KeptLinesSnoc(lines[1..], line, p);
    }
  }

  lemma KeptLinesPrefix(lines: seq<string>, i: nat, p: string)
    requires i < |lines|
    ensures KeptLines(lines[..i + 1], p) ==
              KeptLines(lines[..i], p) + (if Contains(lines[i], p) then [] else [lines[i]])
  {
    assert lines[..i + 1] == lines[..i] + [lines[i]];
    KeptLinesSnoc(lines[..i], lines[i], p);
  }

  // ------------------------------------------------------------------
  // The directive is gone afterwards
  // ------------------------------------------------------------------

  /** An occurrence of p across a separator c would contain c. */
  lemma NoOccurrenceAcross(a: string, c: char, b: string, p: string)
    requires !Contains(a, p) && !Contains(b, p) && c !in p
    ensures !Contains(a + [c] + b, p)
  {
    var s := a + [c] + b;
    forall i | 0 <= i
      ensures !OccursAt(s, p, i)
    {
      if i + |p| > |s| {
      } else if i + |p| <= |a| {
        var w := s[i..i + |p|];
        assert forall k :: 0 <= k < |p| ==> w[k] == a[i + k];
        assert w == a[i..i + |p|];
        assert !OccursAt(a, p, i);
      } else if i <= |a| {
        assert s[i..i + |p|][|a| - i] == c;
      } else {
        var j := i - |a| - 1;
        var w := s[i..i + |p|];
        assert forall k :: 0 <= k < |p| ==> w[k] == b[j + k];
        assert w == b[j..j + |p|];
        assert !OccursAt(b, p, j);
      }
    }
  }

  /** Joining lines with a separator the pattern does not contain creates no occurrence of it. */
  lemma {:induction false} NoOccurrenceInJoin(xs: seq<string>, p: string)
    requires p != [] && '\n' !in p
    requires forall i :: 0 <= i < |xs| ==> !Contains(xs[i], p)
    ensures !Contains(Join(xs, "\n"), p)
  {
    if xs == [] {
      assert !OccursAt([], p, 0);
    } else if |xs| > 1 {
      NoOccurrenceInJoin(xs[1..], p);
      NoOccurrenceAcross(xs[0], '\n', Join(xs[1..], "\n"), p);
    }
  }

  lemma DirectiveIsPlainLine()
    ensures ForwardDirective != [] && PlainLine(ForwardDirective)
  {
    var d := ForwardDirective;
    assert forall i :: 0 <= i < |d| ==> d[i] != '\n';
    assert d[|d| - 1] == '1';
  }

  /** Whatever the file held, the text DropWireguard writes does not contain the directive. */
  lemma DroppedTextHasNoDirective(s: string)
    ensures !Contains(DroppedText(s), ForwardDirective)
  {
    var kept := KeptLines(ScannerLines(s), ForwardDirective);
    DirectiveIsPlainLine();
    KeptLinesMembers(ScannerLines(s), ForwardDirective);
    assert forall i :: 0 <= i < |kept| ==> kept[i] in kept;
    NoOccurrenceInJoin(kept, ForwardDirective);
    assert !OccursAt([], ForwardDirective, 0);
    NoOccurrenceAcross(Join(kept, "\n"), '\n', [], ForwardDirective);
    assert Join(kept, "\n") + ['\n'] + [] == DroppedText(s);
  }

  // ------------------------------------------------------------------
  // Dropping undoes enabling
  // ------------------------------------------------------------------

  /** A line as a text editor writes it: no newline inside, no carriage return at its end. */
  predicate PlainLine(x: string) {
    '\n' !in x && DropCR(x) == x
  }

  lemma {:induction false} JoinSnoc(xs: seq<string>, y: string, sep: string)
    requires xs != []
    ensures Join(xs + [y], sep) == Join(xs, sep) + sep + y
  {
    if |xs| == 1 {
      assert (xs + [y])[1..] == [y];
    } else {
      assert (xs + [y])[1..] == xs[1..] + [y];
      JoinSnoc(xs[1..], y, sep);
    }
  }

  lemma {:induction false} DropCRsOfPlain(xs: seq<string>)
    requires forall i :: 0 <= i < |xs| ==> PlainLine(xs[i])
    ensures DropCRs(xs) == xs
  {
  }

  /** When the text ends with a newline, the scanner drops the empty piece after it. */
  lemma ScannerLinesOfPieces(s: string, ys: seq<string>)
    requires Split(s, '\n') == ys && |ys| >= 1 && ys[|ys| - 1] == []
    ensures ScannerLines(s) == DropCRs(ys[..|ys| - 1])
  {
  }

  /** Newline-terminated lines split at newlines into the lines and an empty last piece. */
  lemma SplitOfLines(xs: seq<string>)
    requires xs != []
    requires forall i :: 0 <= i < |xs| ==> '\n' !in xs[i]
    ensures Split(Join(xs, "\n") + "\n", '\n') == xs + [""]
  {
    var ys := xs + [""];
    JoinSnoc(xs, "", "\n");
    assert Join(xs, "\n") + "\n" + "" == Join(xs, "\n") + "\n";
    assert forall i :: 0 <= i < |ys| ==> '\n' !in ys[i];
    SplitJoin(ys, '\n');
  }

  /** A file made of plain lines, each ended by a newline, is scanned back into those lines. */
  lemma ScannerLinesOfLines(xs: seq<string>)
    requires xs != []
    requires forall i :: 0 <= i < |xs| ==> PlainLine(xs[i])
    ensures ScannerLines(Join(xs, "\n") + "\n") == xs
  {
    SplitOfLines(xs);
    ScannerLinesOfPieces(Join(xs, "\n") + "\n", xs + [""]);
    assert (xs + [""])[..|xs|] == xs;
    DropCRsOfPlain(xs);
  }

  lemma {:induction false} KeptLinesOfClean(xs: seq<string>, p: string)
    requires forall i :: 0 <= i < |xs| ==> !Contains(xs[i], p)
    ensures KeptLines(xs, p) == xs
  {
    if xs != [] {
      KeptLinesOfClean(xs[1..], p);
    }
  }

  /** Scanning and filtering a file whose only line containing p is a last line p gives the other lines. */
  lemma FilterAppendedLine(xs: seq<string>, p: string)
    requires xs != [] && PlainLine(p)
    requires forall i :: 0 <= i < |xs| ==> PlainLine(xs[i]) && !Contains(xs[i], p)
    ensures KeptLines(ScannerLines(Join(xs, "\n") + "\n" + p + "\n"), p) == xs
  {
    var ys := xs + [p];
    JoinSnoc(xs, p, "\n");
    assert Join(xs, "\n") + "\n" + p + "\n" == Join(ys, "\n") + "\n";
    ScannerLinesOfLines(ys);
    ContainsSelf(p);
    KeptLinesSnoc(xs, p, p);
    KeptLinesOfClean(xs, p);
  }

  /**
   * On a file of plain lines, none of which mentions the directive, DropWireguard
   * gives back exactly the text WireguardStart started from.
   */
  lemma DropUndoesEnable(xs: seq<string>)
    requires xs != []
    requires forall i :: 0 <= i < |xs| ==> PlainLine(xs[i]) && !Contains(xs[i], ForwardDirective)
    ensures DroppedText(EnableForwarding(Join(xs, "\n") + "\n")) == Join(xs, "\n") + "\n"
  {
    var text := Join(xs, "\n") + "\n";
    var enabled := EnableForwarding(text);
    assert enabled == Join(xs, "\n") + "\n" + ForwardDirective + "\n";
    DirectiveIsPlainLine();
    FilterAppendedLine(xs, ForwardDirective);
    assert KeptLines(ScannerLines(enabled), ForwardDirective) == xs;
  }

  /** An empty sysctl.conf does not come back empty: DropWireguard writes a lone newline. */
  lemma DropOfEnabledEmpty()
    ensures DroppedText(EnableForwarding("")) == "\n"
  {
    var d := ForwardDirective;
    DirectiveIsPlainLine();
    assert Join([d], "\n") + "\n" == EnableForwarding("");
    ScannerLinesOfLines([d]);
    ContainsSelf(d);
    assert KeptLines([d], d) == [];
  }
}
