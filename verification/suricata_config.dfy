/** The af-packet section the receiver writes into Suricata's configuration: the
    rendered template block and its splice over the placeholder marker. */
module SuricataConfig {
  import opened Wrappers
  import opened Text
  import opened GoStrings

  /** The marker line the configuration template carries where the section goes. */
  const Placeholder: string := "# af-packet-section-placeholder"

  /** The template text before the range, around each interface name, and after it.
      Go's text/template inserts each name verbatim, without escaping. */
  const SectionLine: string := "af-packet:"
  const NameLead: string := "  - interface: "
  const ClusterLine: string := "    cluster-type: cluster_flow"
  const Header: string := "\n" + SectionLine + "\n"
  const EntryOpen: string := "\n" + NameLead
  const EntryClose: string := "\n" + ClusterLine + "\n"
  const Footer: string := "\n"

  /** The summed lengths of the names. */
  function TotalLength(names: seq<string>): nat
  {
    if |names| == 0 then 0 else |names[0]| + TotalLength(names[1..])
  }

  /** The body of the range: one entry per name, in order. */
  function Entries(names: seq<string>): (r: string)
    ensures |r| == 48 * |names| + TotalLength(names)
    ensures |names| > 0 ==> r[0] == '\n' && r[|r| - 1] == '\n'
  {
    if |names| == 0 then ""
    else EntryOpen + names[0] + EntryClose + Entries(names[1..])
  }

  /** The template executed on the interface list. */
  function Render(names: seq<string>): (block: string)
    ensures |block| == 13 + 48 * |names| + TotalLength(names)
    ensures block[..|Header|] == Header && block[|block| - 1] == '\n'
  {
    Header + Entries(names) + Footer
  }

  /** Reads back the names from a run of entries, or nothing if `s` is not one. */
  function ParseEntries(s: string): Option<seq<string>>
    decreases |s|
  {
    if |s| == 0 then Some([])
    else if |s| < |EntryOpen| || s[..|EntryOpen|] != EntryOpen then None
    else
      var body := s[|EntryOpen|..];
      var k := IndexOf(body, '\n');
      var after := body[k..];
      if |after| < |EntryClose| || after[..|EntryClose|] != EntryClose then None
      else
        match ParseEntries(after[|EntryClose|..])
        case None => None
        case Some(names) => Some([body[..k]] + names)
  }

  /** Reads back the interface names from an af-packet block. */
  function ParseBlock(block: string): Option<seq<string>>
  {
    if |block| < |Header| + 1 || block[..|Header|] != Header || block[|block| - 1] != '\n' then None
    else ParseEntries(block[|Header|..|block| - 1])
  }

  /** No name holds a line break. */
  ghost predicate SingleLine(names: seq<string>)
  {
    forall i :: 0 <= i < |names| ==> '\n' !in names[i]
  }

  /** One entry followed by more text parses as its name followed by what that text
      parses as. */
  lemma ParseEntriesStep(n: string, tail: string, rest: seq<string>)
    requires '\n' !in n && ParseEntries(tail) == Some(rest)
    ensures ParseEntries(EntryOpen + n + EntryClose + tail) == Some([n] + rest)
  {
    var s := EntryOpen + n + EntryClose + tail;
    var body := s[|EntryOpen|..];
    assert s[..|EntryOpen|] == EntryOpen;
    var after := EntryClose + tail;
    assert body == n + after;
    IndexOfAfterPrefix(n, after, '\n');
    assert body[..|n|] == n;
    assert body[|n|..] == after;
    assert after[..|EntryClose|] == EntryClose;
    assert after[|EntryClose|..] == tail;
  }

  /** The entries of a list parse as its first name followed by what the entries of
      the rest parse as. */
  lemma ParseFirstEntry(names: seq<string>)
    requires |names| > 0 && '\n' !in names[0]
    requires ParseEntries(Entries(names[1..])) == Some(names[1..])
    ensures ParseEntries(Entries(names)) == Some(names)
  {
    var e := Entries(names);
    assert e == EntryOpen + names[0] + EntryClose + Entries(names[1..]);
    ParseEntriesStep(names[0], Entries(names[1..]), names[1..]);
    assert [names[0]] + names[1..] == names;
  }

  lemma {:induction false} ParseEntriesOfEntries(names: seq<string>)
    requires SingleLine(names)
    ensures ParseEntries(Entries(names)) == Some(names)
  {
    if |names| > 0 {
      var rest := names[1..];
      assert SingleLine(rest) && '\n' !in names[0] by {
        assert forall i :: 0 <= i < |rest| ==> rest[i] == names[i + 1];
      }
      ParseEntriesOfEntries(rest);
      ParseFirstEntry(names);
    }
  }

  lemma {:induction false} EntriesOfParseEntries(s: string, names: seq<string>)
    requires ParseEntries(s) == Some(names)
    ensures SingleLine(names) && Entries(names) == s
    decreases |s|
  {
    if |s| > 0 {
      var body := s[|EntryOpen|..];
      var k := IndexOf(body, '\n');
      var after := body[k..];
      var more := after[|EntryClose|..];
      var rest :| ParseEntries(more) == Some(rest) && names == [body[..k]] + rest;
      EntriesOfParseEntries(more, rest);
      assert names[1..] == rest;
      assert s == s[..|EntryOpen|] + body[..k] + after[..|EntryClose|] + more by {
        Reassemble(s, |EntryOpen|, k, |EntryClose|);
      }
    }
  }

  /** A text cut at three points is the four pieces laid end to end. */
  lemma Reassemble(s: string, a: nat, k: nat, c: nat)
    requires a + k + c <= |s|
    ensures s == s[..a] + s[a..][..k] + s[a..][k..][..c] + s[a..][k..][c..]
  {
  }

  /** The block lists exactly the given names, in the given order: the parser gives
      them back. */
  lemma ParseRender(names: seq<string>)
    requires SingleLine(names)
    ensures ParseBlock(Render(names)) == Some(names)
  {
    var b := Render(names);
    assert b[|Header|..|b| - 1] == Entries(names);
    ParseEntriesOfEntries(names);
  }

  /** The parser accepts nothing but a rendered block of single-line names. */
  lemma RenderParse(block: string, names: seq<string>)
    requires ParseBlock(block) == Some(names)
    ensures SingleLine(names) && Render(names) == block
  {
    var h := |Header|;
    assert h + 1 <= |block| && block[..h] == Header && block[|block| - 1] == '\n';
    var e := block[h..|block| - 1];
    assert ParseEntries(e) == Some(names);
    EntriesOfParseEntries(e, names);
    ThreeParts(block, h);
    assert [block[|block| - 1]] == Footer;
  }

  lemma ThreeParts(b: string, h: nat)
    requires h + 1 <= |b|
    ensures b == b[..h] + b[h..|b| - 1] + [b[|b| - 1]]
  {
  }

  /** Replaces every placeholder marker in the configuration text with the block. */
  function Splice(config: string, block: string): string
  {
    ReplaceAll(config, Placeholder, block)
  }

  /** Without a marker the configuration is returned unchanged: the splice fails
      silently. */
  lemma SpliceWithoutPlaceholder(config: string, block: string)
    requires !Occurs(Placeholder, config)
    ensures Splice(config, block) == config
  {
    ReplaceAllAbsent(config, Placeholder, block);
  }

  /** The configuration is the marker-free pieces joined by markers, and the splice
      joins the same pieces with the block: every marker is replaced, not only the
      first, and the text between markers is kept as is. */
  lemma SpliceReplacesEveryPlaceholder(config: string, block: string)
    ensures var ps := SplitOn(config, Placeholder);
      && config == Join(ps, Placeholder)
      && Splice(config, block) == Join(ps, block)
      && (forall i :: 0 <= i < |ps| ==> !Occurs(Placeholder, ps[i]))
      && (|ps| > 1 <==> Occurs(Placeholder, config))
  {
    JoinSplitOn(config, Placeholder);
    ReplaceAllIsJoin(config, Placeholder, block);
    SplitOnPiecesAreClean(config, Placeholder);
    SplitOnSingle(config, Placeholder);
  }

  /** Marker-free pieces joined by a newline-bounded marker-free text hold no marker:
      the marker has no newline, so none can straddle a seam. */
  lemma {:induction false} JoinNewlineBoundedIsClean(pieces: seq<string>, mid: string)
    requires forall i :: 0 <= i < |pieces| ==> !Occurs(Placeholder, pieces[i])
    requires !Occurs(Placeholder, mid)
    ensures !Occurs(Placeholder, Join(pieces, "\n" + mid + "\n"))
  {
    if |pieces| > 1 {
      var rest := Join(pieces[1..], "\n" + mid + "\n");
      JoinNewlineBoundedIsClean(pieces[1..], mid);
      NoOccurrenceAcross(Placeholder, mid, '\n', rest);
      NoOccurrenceAcross(Placeholder, pieces[0], '\n', mid + ['\n'] + rest);
      assert Join(pieces, "\n" + mid + "\n") == pieces[0] + ['\n'] + (mid + ['\n'] + rest);
    }
  }

  /** The marker is a comment: it starts with `#` and spans no line break. */
  lemma PlaceholderShape()
    ensures |Placeholder| > 0 && Placeholder[0] == '#' && '\n' !in Placeholder
  {
  }

  /** Three newline-separated lines hold no pattern when the pattern spans no line
      break, the first and third lines hold none, and the second is a stretch without
      the pattern's first character followed by a clean text. */
  lemma CleanLines(pat: string, lead: string, n: string, mid: string, tail: string)
    requires |pat| > 0 && '\n' !in pat
    requires pat[0] !in lead && pat[0] !in mid
    requires !Occurs(pat, n) && !Occurs(pat, tail)
    ensures !Occurs(pat, "" + ['\n'] + ((lead + n) + ['\n'] + (mid + ['\n'] + tail)))
  {
    NoOccurrenceAfterHeadless(pat, lead, n);
    NoOccurrenceWithoutHead(pat, mid);
    NoOccurrenceAcross(pat, mid, '\n', tail);
    NoOccurrenceAcross(pat, lead + n, '\n', mid + ['\n'] + tail);
    NoOccurrenceWithoutHead(pat, "");
    NoOccurrenceAcross(pat, "", '\n', (lead + n) + ['\n'] + (mid + ['\n'] + tail));
  }

  /** One entry laid out as its three lines. */
  lemma EntryLines(n: string, tail: string)
    ensures EntryOpen + n + EntryClose + tail
      == "" + ['\n'] + ((NameLead + n) + ['\n'] + (ClusterLine + ['\n'] + tail))
  {
  }

  /** One entry holds no marker, whatever follows it, unless its name does. */
  lemma EntryIsClean(n: string, tail: string)
    requires !Occurs(Placeholder, n) && !Occurs(Placeholder, tail)
    ensures !Occurs(Placeholder, EntryOpen + n + EntryClose + tail)
  {
    PlaceholderShape();
    assert '#' !in NameLead && '#' !in ClusterLine;
    CleanLines(Placeholder, NameLead, n, ClusterLine, tail);
    EntryLines(n, tail);
  }

  /** No entry line holds a marker unless a name does. */
  lemma {:induction false} EntriesAreClean(names: seq<string>)
    requires forall i :: 0 <= i < |names| ==> !Occurs(Placeholder, names[i])
    ensures !Occurs(Placeholder, Entries(names))
  {
    if |names| == 0 {
      NoOccurrenceWithoutHead(Placeholder, "");
    } else {
      EntriesAreClean(names[1..]);
      EntryIsClean(names[0], Entries(names[1..]));
    }
  }

  /** Between its opening and closing newlines, the block is the `af-packet:` line
      and the entries. */
  lemma RenderShape(names: seq<string>)
    ensures Render(names) == "\n" + (SectionLine + ['\n'] + Entries(names)) + "\n"
  {
  }

  /** The section line cannot start a marker. */
  lemma SectionLineHasNoHash()
    ensures '#' !in SectionLine
  {
  }

  /** Between its opening and closing newlines, the block holds no marker unless a name
      does. */
  lemma InnerBlockIsClean(names: seq<string>)
    requires forall i :: 0 <= i < |names| ==> !Occurs(Placeholder, names[i])
    ensures !Occurs(Placeholder, SectionLine + ['\n'] + Entries(names))
  {
    PlaceholderShape();
    SectionLineHasNoHash();
    EntriesAreClean(names);
    NoOccurrenceWithoutHead(Placeholder, SectionLine);
    NoOccurrenceAcross(Placeholder, SectionLine, '\n', Entries(names));
  }

  /** After splicing in the rendered block, the configuration holds no marker, unless
      an interface name itself contains one: the original text cannot form a new
      marker around the block, whose first and last characters are newlines. */
  lemma SpliceLeavesNoPlaceholder(config: string, names: seq<string>)
    requires forall i :: 0 <= i < |names| ==> !Occurs(Placeholder, names[i])
    ensures !Occurs(Placeholder, Splice(config, Render(names)))
  {
    var mid := SectionLine + ['\n'] + Entries(names);
    InnerBlockIsClean(names);
    RenderShape(names);
    var ps := SplitOn(config, Placeholder);
    SpliceReplacesEveryPlaceholder(config, Render(names));
    JoinNewlineBoundedIsClean(ps, mid);
  }
}
