// Archives as texts: what a list of entries looks like when it is written out,
// and that the walk finds exactly these entries.  The layout, the kinds and the
// rules for names are stated here on their own, in numbers.
module ArchiveText {
  import opened BlockFormat
  import opened FirmwarePackage
  import opened Flashing

  // A header of 512 bytes, the data, and what fills the last block up.
  datatype Entry = Entry(header: seq<byte>, data: seq<byte>, filler: seq<byte>) {
    predicate Ok() {
      |header| == 512 && |filler| < 512 && (|data| + |filler|) % 512 == 0
    }

    function Bytes(): seq<byte> { header + data + filler }

    // The byte that tells the kind: 'L', 'x' or 'g', 0 or '0'.
    predicate TellsLongName() { |header| == 512 && header[156] == 76 }
    predicate TellsPath() { |header| == 512 && (header[156] == 120 || header[156] == 103) }
    predicate IsFile() { |header| == 512 && (header[156] == 0 || header[156] == 48) }
  }

  // The first i entries, written one after the other.
  function TextTo(es: seq<Entry>, i: nat): seq<byte>
    requires i <= |es|
  {
    if i == 0 then [] else TextTo(es, i - 1) + es[i - 1].Bytes()
  }

  // The name of entry i: what the entry directly before it tells, else what its
  // own header says.
  function NameOf(t: Tools, es: seq<Entry>, i: nat): Name
    requires i < |es|
  {
    if i > 0 && es[i - 1].TellsLongName() && t.longName(es[i - 1].data) != [] then t.longName(es[i - 1].data)
    else if i > 0 && es[i - 1].TellsPath() && t.paxPath(es[i - 1].data, []) != [] then t.paxPath(es[i - 1].data, [])
    else t.headerName(es[i].header)
  }

  // The partition that entry i goes to, if any.
  function Target(t: Tools, es: seq<Entry>, i: nat): Option<nat>
    requires i < |es|
  {
    if es[i].IsFile() then t.partition(NameOf(t, es, i)) else None
  }

  // The partitions of the first i entries.
  function Targets(t: Tools, es: seq<Entry>, i: nat): set<nat>
    requires i <= |es|
  {
    if i == 0 then {}
    else Targets(t, es, i - 1) + if Target(t, es, i - 1).Some? then {Target(t, es, i - 1).value} else {}
  }

  // What an archive of the first i entries asks to be sent, in order.
  ghost function Images(t: Tools, es: seq<Entry>, i: nat): seq<Item>
    requires DecoderOk(t.decoder) && i <= |es|
  {
    if i == 0 then []
    else
      var image := EntryImage(t, NameOf(t, es, i - 1), es[i - 1].data);
      Images(t, es, i - 1)
      + if Target(t, es, i - 1).Some? && image.Some? then
          [Item(Target(t, es, i - 1).value, image.value.0, image.value.1)]
        else []
  }

  // Entry i is in order: its header, its size, and where it goes.
  ghost predicate Good(t: Tools, es: seq<Entry>, i: nat, allowUnknown: bool)
    requires DecoderOk(t.decoder) && i < |es|
  {
    var e := es[i];
    && e.Ok() && (exists k :: 0 <= k < 512 && e.header[k] != 0)
    && t.checksumValid(e.header) && t.sizeField(e.header) == Some(|e.data|)
    && (e.TellsLongName() || e.TellsPath() ==> |e.data| <= 1048576)
    && (e.IsFile() ==>
          && NameOf(t, es, i) != [] && (Target(t, es, i) == None ==> allowUnknown)
          && (Target(t, es, i).Some? ==>
                && Target(t, es, i).value !in Targets(t, es, i)
                && EntryImage(t, NameOf(t, es, i), e.data).Some?))
  }

  ghost predicate AllGood(t: Tools, es: seq<Entry>, i: nat, allowUnknown: bool)
    requires DecoderOk(t.decoder)
  {
    i <= |es| && forall k :: 0 <= k < i ==> Good(t, es, k, allowUnknown)
  }

  // The text of the entries with nothing of a header behind it, or a block of
  // zeros; the filler of the last entry may be cut short.
  predicate IsTextOf(text: seq<byte>, es: seq<Entry>) {
    var all := TextTo(es, |es|);
    || (all <= text && |text| < |all| + 512)
    || (all <= text && |all| + 512 <= |text| && forall k :: |all| <= k < |all| + 512 ==> text[k] == 0)
    || (es != [] && text <= all && |all| - |text| <= |es[|es| - 1].filler|)
  }

  // ---------------------------------------------------------------------
  // The walk
  // ---------------------------------------------------------------------

  // Where the walk stands before entry i.
  ghost function At(t: Tools, es: seq<Entry>, i: nat): Cursor
    requires i <= |es|
  {
    Cursor(|TextTo(es, i)|,
           if i > 0 && es[i - 1].TellsLongName() then t.longName(es[i - 1].data) else [],
           if i > 0 && es[i - 1].TellsPath() then t.paxPath(es[i - 1].data, []) else [],
           Targets(t, es, i))
  }

  // There is only one way of filling up a block.
  lemma OnlyPadding(size: nat, filler: nat)
    requires filler < 512 && (size + filler) % 512 == 0
    ensures Padding(size) == filler
  {
  }

  // The entry at its place in the content.
  ghost predicate Lies(content: seq<byte>, contentEnd: nat, pos: nat, e: Entry) {
    && |e.header| == 512 && pos + 512 + |e.data| <= contentEnd <= |content|
    && content[pos..pos + 512] == e.header && content[pos + 512..pos + 512 + |e.data|] == e.data
  }

  ghost function StepOf(t: Tools, es: seq<Entry>, i: nat): FirmwarePackage.Step
    requires DecoderOk(t.decoder) && i < |es|
  {
    var image := EntryImage(t, NameOf(t, es, i), es[i].data);
    if Target(t, es, i).Some? && image.Some? then
      Take(Item(Target(t, es, i).value, image.value.0, image.value.1), At(t, es, i + 1))
    else Pass(At(t, es, i + 1))
  }

  // The cursor behind the entry, before its kind is looked at.
  ghost function Behind(t: Tools, es: seq<Entry>, i: nat): Cursor
    requires i < |es|
  {
    Cursor(|TextTo(es, i + 1)|, [], [], Targets(t, es, i))
  }

  lemma HeaderStep(t: Tools, content: seq<byte>, contentEnd: nat, allowUnknown: bool, es: seq<Entry>, i: nat)
    requires DecoderOk(t.decoder) && i < |es| && Good(t, es, i, allowUnknown)
    requires Lies(content, contentEnd, |TextTo(es, i)|, es[i])
    ensures OneHeader(t, content, contentEnd, allowUnknown, At(t, es, i)) ==
            ByKind(t, es[i].header[156] as int, NameOf(t, es, i), es[i].data, Behind(t, es, i), allowUnknown)
  {
    hide EntryImage, ByKind, Padding, Targets, Target, TextTo, NameOf;
    var e := es[i];
    OnlyPadding(|e.data|, |e.filler|);
    EntryLength(es, i);
    NameAt(t, es, i);
  }

  lemma EntryLength(es: seq<Entry>, i: nat)
    requires i < |es| && es[i].Ok()
    ensures |TextTo(es, i + 1)| == |TextTo(es, i)| + 512 + |es[i].data| + |es[i].filler|
  {
  }

  // The rule of the walk for names, of which at most one is pending.
  lemma NameAt(t: Tools, es: seq<Entry>, i: nat)
    requires i < |es|
    ensures var c := At(t, es, i);
            && NameOf(t, es, i) == (if c.long != [] then c.long else if c.pax != [] then c.pax
                                    else t.headerName(es[i].header))
            && (c.long != [] ==> c.pax == [])
  {
    hide TextTo, Targets;
  }

  lemma KindStep(t: Tools, allowUnknown: bool, es: seq<Entry>, i: nat)
    requires DecoderOk(t.decoder) && i < |es| && Good(t, es, i, allowUnknown)
    ensures ByKind(t, es[i].header[156] as int, NameOf(t, es, i), es[i].data, Behind(t, es, i), allowUnknown)
         == StepOf(t, es, i)
  {
    hide EntryImage, TextTo, NameOf;
  }

  // One good entry is one step of the walk.
  lemma GoodStep(t: Tools, content: seq<byte>, contentEnd: nat, allowUnknown: bool, es: seq<Entry>, i: nat)
    requires DecoderOk(t.decoder) && i < |es| && Good(t, es, i, allowUnknown)
    requires Lies(content, contentEnd, |TextTo(es, i)|, es[i])
    ensures OneHeader(t, content, contentEnd, allowUnknown, At(t, es, i)) == StepOf(t, es, i)
  {
    hide Good, OneHeader, ByKind, StepOf, At, Behind, Lies;
    HeaderStep(t, content, contentEnd, allowUnknown, es, i);
    KindStep(t, allowUnknown, es, i);
  }

  // A step of the walk, and what it adds to the images.
  lemma OneStep(t: Tools, content: seq<byte>, contentEnd: nat, allowUnknown: bool, es: seq<Entry>, i: nat)
    requires DecoderOk(t.decoder) && i < |es| && Good(t, es, i, allowUnknown)
    requires Lies(content, contentEnd, |TextTo(es, i)|, es[i])
    ensures After(Images(t, es, i), Walk(t, content, contentEnd, allowUnknown, At(t, es, i)))
         == After(Images(t, es, i + 1), Walk(t, content, contentEnd, allowUnknown, At(t, es, i + 1)))
  {
    hide OneHeader, Good, EntryImage, TextTo, Targets, Target, NameOf;
    GoodStep(t, content, contentEnd, allowUnknown, es, i);
    var rest := Walk(t, content, contentEnd, allowUnknown, At(t, es, i + 1));
    var step := StepOf(t, es, i);
    if rest.Accepts? {
      if step.Take? {
        assert Images(t, es, i) + ([step.item] + rest.items) == Images(t, es, i) + [step.item] + rest.items;
      } else {
        assert Images(t, es, i) + [] == Images(t, es, i);
      }
    }
  }

  lemma {:induction false} GoodSteps(t: Tools, content: seq<byte>, contentEnd: nat, allowUnknown: bool,
                                     es: seq<Entry>, i: nat)
    requires DecoderOk(t.decoder) && AllGood(t, es, i, allowUnknown) && contentEnd <= |content|
    requires forall k :: 0 <= k < i ==> Lies(content, contentEnd, |TextTo(es, k)|, es[k])
    ensures Walk(t, content, contentEnd, allowUnknown, At(t, es, 0))
         == After(Images(t, es, i), Walk(t, content, contentEnd, allowUnknown, At(t, es, i)))
  {
    hide Walk, Good, At, Lies, TextTo;
    if i == 0 {
      var o := Walk(t, content, contentEnd, allowUnknown, At(t, es, 0));
      if o.Accepts? { assert [] + o.items == o.items; }
    } else {
      GoodSteps(t, content, contentEnd, allowUnknown, es, i - 1);
      OneStep(t, content, contentEnd, allowUnknown, es, i - 1);
    }
  }

  lemma AtIs(t: Tools, es: seq<Entry>, i: nat)
    requires i <= |es|
    ensures At(t, es, i).pos == |TextTo(es, i)| && At(t, es, 0) == Cursor(0, [], [], {})
  {
  }

  // ---------------------------------------------------------------------
  // From the text to the walk
  // ---------------------------------------------------------------------

  lemma {:induction false} TextGrows(es: seq<Entry>, i: nat, j: nat)
    requires i <= j <= |es|
    ensures TextTo(es, i) <= TextTo(es, j)
    decreases j
  {
    if i < j { TextGrows(es, i, j - 1); }
  }

  // What is common to the text of the entries and the content.
  ghost predicate Begins(content: seq<byte>, contentEnd: nat, es: seq<Entry>, i: nat) {
    && i <= |es| && contentEnd <= |content|
    && (forall k :: 0 <= k < |TextTo(es, i)| && k < contentEnd ==> TextTo(es, i)[k] == content[k])
    && (i > 0 ==> |TextTo(es, i)| - |es[i - 1].filler| <= contentEnd)
  }

  lemma EntryLies(content: seq<byte>, contentEnd: nat, es: seq<Entry>, i: nat)
    requires i < |es| && es[i].Ok() && Begins(content, contentEnd, es, i + 1)
    ensures Lies(content, contentEnd, |TextTo(es, i)|, es[i])
  {
    var pos, e, all := |TextTo(es, i)|, es[i], TextTo(es, i + 1);
    assert all[pos..pos + 512] == e.header && all[pos + 512..pos + 512 + |e.data|] == e.data;
    assert content[pos..pos + 512] == all[pos..pos + 512];
    assert content[pos + 512..pos + 512 + |e.data|] == all[pos + 512..pos + 512 + |e.data|];
  }

  lemma BeginsBefore(content: seq<byte>, contentEnd: nat, es: seq<Entry>, i: nat)
    requires i < |es| && es[i].Ok() && Begins(content, contentEnd, es, i + 1)
    ensures Begins(content, contentEnd, es, i)
  {
    TextGrows(es, i, i + 1);
    assert |TextTo(es, i + 1)| == |TextTo(es, i)| + 512 + |es[i].data| + |es[i].filler|;
  }

  lemma {:induction false} EntriesLie(content: seq<byte>, contentEnd: nat, es: seq<Entry>, i: nat)
    requires Begins(content, contentEnd, es, i) && forall k :: 0 <= k < i ==> es[k].Ok()
    ensures forall k :: 0 <= k < i ==> Lies(content, contentEnd, |TextTo(es, k)|, es[k])
  {
    hide Begins, Lies, Entry.Ok, TextTo;
    if i > 0 {
      BeginsIndex(content, contentEnd, es, i);
      BeginsBefore(content, contentEnd, es, i - 1);
      EntriesLie(content, contentEnd, es, i - 1);
      EntryLies(content, contentEnd, es, i - 1);
    }
  }

  lemma BeginsIndex(content: seq<byte>, contentEnd: nat, es: seq<Entry>, i: nat)
    requires Begins(content, contentEnd, es, i)
    ensures i <= |es| && contentEnd <= |content|
  {
  }

  lemma TextBegins(content: seq<byte>, contentEnd: nat, es: seq<Entry>)
    requires contentEnd <= |content| && IsTextOf(content[..contentEnd], es)
    ensures Begins(content, contentEnd, es, |es|)
  {
    var all, text := TextTo(es, |es|), content[..contentEnd];
    assert |es| > 0 ==> |all| == |TextTo(es, |es| - 1)| + |es[|es| - 1].Bytes()|;
    forall k | 0 <= k < |all| && k < contentEnd ensures all[k] == content[k] {
      assert text[k] == content[k];
    }
  }

  // At the end of the text nothing more is found.
  lemma TextEnds(t: Tools, content: seq<byte>, contentEnd: nat, allowUnknown: bool, es: seq<Entry>)
    requires DecoderOk(t.decoder) && contentEnd <= |content| && IsTextOf(content[..contentEnd], es)
    requires es != [] ==> es[|es| - 1].Ok()
    ensures Walk(t, content, contentEnd, allowUnknown, At(t, es, |es|)) == Accepts([])
  {
    hide ByKind, TextTo, Targets;
    var pos, text := |TextTo(es, |es|)|, content[..contentEnd];
    if pos + 512 <= contentEnd {
      var header := content[pos..pos + 512];
      forall k | 0 <= k < 512 ensures header[k] == 0 {
        assert text[pos + k] == content[pos + k];
      }
    }
  }

  // The archive of good entries is accepted with their images, in order.
  lemma ArchiveReads(t: Tools, content: seq<byte>, contentEnd: nat, allowUnknown: bool, es: seq<Entry>)
    requires DecoderOk(t.decoder) && 512 <= contentEnd <= |content|
    requires AllGood(t, es, |es|, allowUnknown) && IsTextOf(content[..contentEnd], es)
    ensures Archive(t, content, contentEnd, allowUnknown) == Accepts(Images(t, es, |es|))
  {
    hide IsTextOf, Walk, Good, At, Begins, Lies;
    AllOk(t, es, |es|, allowUnknown);
    TextBegins(content, contentEnd, es);
    EntriesLie(content, contentEnd, es, |es|);
    GoodSteps(t, content, contentEnd, allowUnknown, es, |es|);
    TextEnds(t, content, contentEnd, allowUnknown, es);
    AtIs(t, es, 0);
    assert Images(t, es, |es|) + [] == Images(t, es, |es|);
  }

  lemma AllOk(t: Tools, es: seq<Entry>, i: nat, allowUnknown: bool)
    requires DecoderOk(t.decoder) && AllGood(t, es, i, allowUnknown)
    ensures forall k :: 0 <= k < i ==> es[k].Ok()
  {
    forall k | 0 <= k < i ensures es[k].Ok() { assert Good(t, es, k, allowUnknown); }
  }

  // ---------------------------------------------------------------------
  // From the walk to the text
  // ---------------------------------------------------------------------

  // Another entry changes nothing about those before it.
  lemma {:induction false} OneMore(t: Tools, es: seq<Entry>, e: Entry, i: nat)
    requires DecoderOk(t.decoder) && i <= |es|
    ensures TextTo(es + [e], i) == TextTo(es, i) && Targets(t, es + [e], i) == Targets(t, es, i)
    ensures Images(t, es + [e], i) == Images(t, es, i)
    ensures forall k :: 0 <= k < i ==> NameOf(t, es + [e], k) == NameOf(t, es, k)
  {
    hide EntryImage;
    if i > 0 {
      OneMore(t, es, e, i - 1);
      assert (es + [e])[i - 1] == es[i - 1] && (i > 1 ==> (es + [e])[i - 2] == es[i - 2]);
    }
  }

  lemma StillGood(t: Tools, es: seq<Entry>, e: Entry, allowUnknown: bool)
    requires DecoderOk(t.decoder) && AllGood(t, es, |es|, allowUnknown)
    ensures AllGood(t, es + [e], |es|, allowUnknown)
  {
    forall k | 0 <= k < |es| ensures Good(t, es + [e], k, allowUnknown) {
      assert Good(t, es, k, allowUnknown);
      GoodAnyway(t, es, e, k, allowUnknown);
    }
  }

  lemma GoodAnyway(t: Tools, es: seq<Entry>, e: Entry, i: nat, allowUnknown: bool)
    requires DecoderOk(t.decoder) && i < |es| && Good(t, es, i, allowUnknown)
    ensures Good(t, es + [e], i, allowUnknown)
  {
    hide EntryImage, NameOf, Targets;
    OneMore(t, es, e, i);
    OneMore(t, es, e, i + 1);
    assert (es + [e])[i] == es[i] && NameOf(t, es + [e], i) == NameOf(t, es, i);
    assert Target(t, es + [e], i) == Target(t, es, i);
  }

  // What the walk takes for an entry, with its filler made up to full length.
  ghost function EntryAt(content: seq<byte>, contentEnd: nat, pos: nat, size: nat): Entry
    requires pos + 512 + size <= contentEnd <= |content|
  {
    var end := pos + 512 + size;
    var there := Smaller(Padding(size), contentEnd - end);
    Entry(content[pos..pos + 512], content[pos + 512..end],
          content[end..end + there] + Zeros(Padding(size) - there))
  }

  // One step of the walk that is not the last is one more good entry.
  lemma NewEntry(t: Tools, content: seq<byte>, contentEnd: nat, allowUnknown: bool, es: seq<Entry>) returns (e: Entry)
    requires DecoderOk(t.decoder) && AllGood(t, es, |es|, allowUnknown) && Begins(content, contentEnd, es, |es|)
    requires |TextTo(es, |es|)| + 512 <= contentEnd
    requires !OneHeader(t, content, contentEnd, allowUnknown, At(t, es, |es|)).Halt?
    ensures AllGood(t, es + [e], |es| + 1, allowUnknown) && Begins(content, contentEnd, es + [e], |es| + 1)
    ensures Lies(content, contentEnd, |TextTo(es, |es|)|, e)
  {
    hide Good, EntryImage, NameOf, Targets;
    var n, pos := |es|, |TextTo(es, |es|)|;
    var size := t.sizeField(content[pos..pos + 512]).value;
    e := EntryAt(content, contentEnd, pos, size);
    EntryAtOk(content, contentEnd, pos, size);
    StillGood(t, es, e, allowUnknown);
    NewIsGood(t, content, contentEnd, allowUnknown, es, e);
    NewBegins(content, contentEnd, es, e, size);
  }

  lemma EntryAtOk(content: seq<byte>, contentEnd: nat, pos: nat, size: nat)
    requires pos + 512 + size <= contentEnd <= |content|
    ensures var e := EntryAt(content, contentEnd, pos, size);
            e.Ok() && |e.data| == size && Lies(content, contentEnd, pos, e)
  {
    PaddedIsAligned(size);
  }

  lemma NewIsGood(t: Tools, content: seq<byte>, contentEnd: nat, allowUnknown: bool, es: seq<Entry>, e: Entry)
    requires DecoderOk(t.decoder) && e.Ok() && |TextTo(es, |es|)| + 512 <= contentEnd <= |content|
    requires Lies(content, contentEnd, |TextTo(es, |es|)|, e)
    requires t.sizeField(e.header) == Some(|e.data|)
    requires !OneHeader(t, content, contentEnd, allowUnknown, At(t, es, |es|)).Halt?
    ensures Good(t, es + [e], |es|, allowUnknown)
  {
    hide EntryImage, Padding, TextTo, NameOf, Targets;
    var es', n := es + [e], |es|;
    SameAt(t, es, e);
    NameAt(t, es', n);
    assert es'[n] == e;
    assert At(t, es', n).used == Targets(t, es', n);
  }

  lemma BytesLie(content: seq<byte>, contentEnd: nat, pos: nat, size: nat)
    requires pos + 512 + size <= contentEnd <= |content|
    ensures var x := EntryAt(content, contentEnd, pos, size).Bytes();
            forall k :: 0 <= k < |x| && pos + k < contentEnd ==> x[k] == content[pos + k]
  {
    hide Padding, Zeros;
    var e, end := EntryAt(content, contentEnd, pos, size), pos + 512 + size;
    var x, there := e.Bytes(), Smaller(Padding(size), contentEnd - end);
    assert content[pos..end + there] == e.header + e.data + content[end..end + there];
    assert x[..512 + size + there] == content[pos..end + there];
    forall k | 0 <= k < |x| && pos + k < contentEnd ensures x[k] == content[pos + k] {
      assert k < 512 + size + there;
      assert x[k] == x[..512 + size + there][k] == content[pos..end + there][k];
    }
  }

  lemma NewBegins(content: seq<byte>, contentEnd: nat, es: seq<Entry>, e: Entry, size: nat)
    requires Begins(content, contentEnd, es, |es|) && |TextTo(es, |es|)| + 512 + size <= contentEnd
    requires e == EntryAt(content, contentEnd, |TextTo(es, |es|)|, size)
    ensures Begins(content, contentEnd, es + [e], |es| + 1)
  {
    hide TextTo, EntryAt;
    var n, pos, x := |es|, |TextTo(es, |es|)|, e.Bytes();
    TextPlus(es, e);
    BytesLie(content, contentEnd, pos, size);
    FillerLast(content, contentEnd, pos, size);
    var all := TextTo(es, n) + x;
    forall k | 0 <= k < |all| && k < contentEnd ensures all[k] == content[k] {
      if k >= pos { assert all[k] == x[k - pos]; }
    }
    assert (es + [e])[n] == e;
  }

  lemma FillerLast(content: seq<byte>, contentEnd: nat, pos: nat, size: nat)
    requires pos + 512 + size <= contentEnd <= |content|
    ensures var e := EntryAt(content, contentEnd, pos, size); |e.Bytes()| == 512 + size + |e.filler|
  {
  }

  lemma TextPlus(es: seq<Entry>, e: Entry)
    ensures TextTo(es + [e], |es| + 1) == TextTo(es, |es|) + e.Bytes()
  {
    SameText(es, e, |es|);
    assert (es + [e])[|es|] == e;
  }

  lemma {:induction false} SameText(es: seq<Entry>, e: Entry, i: nat)
    requires i <= |es|
    ensures TextTo(es + [e], i) == TextTo(es, i)
  {
    if i > 0 {
      SameText(es, e, i - 1);
      assert (es + [e])[i - 1] == es[i - 1];
    }
  }

  // The walk of an accepted archive, entry by entry.
  lemma FindEntries(t: Tools, content: seq<byte>, contentEnd: nat, allowUnknown: bool, es: seq<Entry>)
    returns (all: seq<Entry>)
    requires DecoderOk(t.decoder) && AllGood(t, es, |es|, allowUnknown) && Begins(content, contentEnd, es, |es|)
    requires Walk(t, content, contentEnd, allowUnknown, At(t, es, |es|)).Accepts?
    ensures AllGood(t, all, |all|, allowUnknown) && IsTextOf(content[..contentEnd], all)
    decreases contentEnd - |TextTo(es, |es|)|
  {
    hide Good, OneHeader, Targets, NameOf, EntryImage, Begins, IsTextOf;
    BeginsIndex(content, contentEnd, es, |es|);
    AtIs(t, es, |es|);
    var c := At(t, es, |es|);
    if c.pos + 512 > contentEnd || OneHeader(t, content, contentEnd, allowUnknown, c).Halt? {
      all := es;
      EndIsText(t, content, contentEnd, allowUnknown, es);
    } else {
      var e := NewEntry(t, content, contentEnd, allowUnknown, es);
      var es' := es + [e];
      assert Good(t, es', |es|, allowUnknown);
      SameText(es, e, |es|);
      assert es'[|es|] == e;
      GoodStep(t, content, contentEnd, allowUnknown, es', |es|);
      SameAt(t, es, e);
      all := FindEntries(t, content, contentEnd, allowUnknown, es');
    }
  }

  lemma SameAt(t: Tools, es: seq<Entry>, e: Entry)
    requires DecoderOk(t.decoder)
    ensures At(t, es + [e], |es|) == At(t, es, |es|)
    ensures |TextTo(es + [e], |es| + 1)| >= |TextTo(es, |es|)| + |e.header|
  {
    OneMore(t, es, e, |es|);
    assert |es| > 0 ==> (es + [e])[|es| - 1] == es[|es| - 1];
    assert (es + [e])[|es|] == e;
  }

  lemma EndIsText(t: Tools, content: seq<byte>, contentEnd: nat, allowUnknown: bool, es: seq<Entry>)
    requires DecoderOk(t.decoder) && Begins(content, contentEnd, es, |es|)
    requires |TextTo(es, |es|)| + 512 <= contentEnd ==>
               && OneHeader(t, content, contentEnd, allowUnknown, At(t, es, |es|)).Halt?
               && OneHeader(t, content, contentEnd, allowUnknown, At(t, es, |es|)).outcome.Accepts?
    ensures IsTextOf(content[..contentEnd], es)
  {
    hide ByKind, Targets;
    var all, text := TextTo(es, |es|), content[..contentEnd];
    if |all| <= contentEnd {
      assert all <= text by { assert forall k :: 0 <= k < |all| ==> all[k] == text[k]; }
      if |all| + 512 <= contentEnd {
        var header := content[|all|..|all| + 512];
        assert AllZeros(header);
        forall k | |all| <= k < |all| + 512 ensures text[k] == 0 { assert header[k - |all|] == 0; }
      }
    } else {
      assert text <= all by { assert forall k :: 0 <= k < |text| ==> all[k] == text[k]; }
    }
  }

  // An archive is accepted with these images exactly if it is the text of good
  // entries that ask for them.
  lemma AcceptedArchives(t: Tools, content: seq<byte>, contentEnd: nat, allowUnknown: bool, items: seq<Item>)
    requires DecoderOk(t.decoder) && 512 <= contentEnd <= |content|
    ensures Archive(t, content, contentEnd, allowUnknown) == Accepts(items) <==>
            exists es :: AllGood(t, es, |es|, allowUnknown) && IsTextOf(content[..contentEnd], es)
                         && Images(t, es, |es|) == items
  {
    hide AllGood, IsTextOf, Images, Walk, Begins;
    if Archive(t, content, contentEnd, allowUnknown) == Accepts(items) {
      Nothing(t, content, contentEnd, allowUnknown);
      AtIs(t, [], 0);
      var es := FindEntries(t, content, contentEnd, allowUnknown, []);
      ArchiveReads(t, content, contentEnd, allowUnknown, es);
    }
    forall es | AllGood(t, es, |es|, allowUnknown) && IsTextOf(content[..contentEnd], es)
      ensures Archive(t, content, contentEnd, allowUnknown) == Accepts(Images(t, es, |es|))
    {
      ArchiveReads(t, content, contentEnd, allowUnknown, es);
    }
  }

  lemma Nothing(t: Tools, content: seq<byte>, contentEnd: nat, allowUnknown: bool)
    requires DecoderOk(t.decoder) && contentEnd <= |content|
    ensures AllGood(t, [], 0, allowUnknown) && Begins(content, contentEnd, [], 0)
  {
  }

  // ---------------------------------------------------------------------
  // Refusals
  // ---------------------------------------------------------------------

  // What is wrong with an entry that follows good ones; `left` is the content
  // behind its header.
  ghost function Offence(t: Tools, es: seq<Entry>, header: seq<byte>, left: seq<byte>, allowUnknown: bool)
    : Option<ExitCode>
    requires DecoderOk(t.decoder)
  {
    match t.sizeField(header)
    case None => Some(Firmware)
    case Some(size) =>
      if !t.checksumValid(header) || size > |left| then Some(Firmware)
      else
        var e := Entry(header, left[..size], []);
        var name := NameOf(t, es + [e], |es|);
        if e.TellsLongName() || e.TellsPath() then if size > 1048576 then Some(Firmware) else None
        else if !e.IsFile() then None
        else if name == [] then Some(Firmware)
        else if t.partition(name) == None then if allowUnknown then None else Some(Pit)
        else if t.partition(name).value in Targets(t, es, |es|) then Some(Pit)
        else if EntryImage(t, name, e.data) == None then Some(Firmware)
        else None
  }

  // The first entry that offends decides the code.
  lemma RefusedArchives(t: Tools, content: seq<byte>, contentEnd: nat, allowUnknown: bool, es: seq<Entry>,
                        code: ExitCode)
    requires DecoderOk(t.decoder) && AllGood(t, es, |es|, allowUnknown) && Begins(content, contentEnd, es, |es|)
    requires |TextTo(es, |es|)| + 512 <= contentEnd <= |content|
    requires var pos := |TextTo(es, |es|)|;
             && !AllZeros(content[pos..pos + 512])
             && Offence(t, es, content[pos..pos + 512], content[pos + 512..contentEnd], allowUnknown) == Some(code)
    ensures Archive(t, content, contentEnd, allowUnknown) == Refuses(code)
  {
    hide AllGood, Begins, Walk, OneHeader, Offence, Lies, At, AllZeros, TextTo;
    GoodIndex(t, es, |es|, allowUnknown);
    EntriesLie(content, contentEnd, es, |es|);
    GoodSteps(t, content, contentEnd, allowUnknown, es, |es|);
    AtIs(t, es, |es|);
    OffenceHalts(t, content, contentEnd, allowUnknown, es, code);
    HaltsHere(t, content, contentEnd, allowUnknown, At(t, es, |es|), code);
  }

  lemma GoodIndex(t: Tools, es: seq<Entry>, i: nat, allowUnknown: bool)
    requires DecoderOk(t.decoder) && AllGood(t, es, i, allowUnknown)
    ensures i <= |es| && forall k :: 0 <= k < i ==> es[k].Ok()
  {
    AllOk(t, es, i, allowUnknown);
  }

  lemma HaltsHere(t: Tools, content: seq<byte>, contentEnd: nat, allowUnknown: bool, c: Cursor, code: ExitCode)
    requires DecoderOk(t.decoder) && c.pos + 512 <= contentEnd <= |content|
    requires OneHeader(t, content, contentEnd, allowUnknown, c) == Halt(Refuses(code))
    ensures Walk(t, content, contentEnd, allowUnknown, c) == Refuses(code)
  {
    hide OneHeader;
  }

  lemma OffenceHalts(t: Tools, content: seq<byte>, contentEnd: nat, allowUnknown: bool, es: seq<Entry>, code: ExitCode)
    requires DecoderOk(t.decoder) && |TextTo(es, |es|)| + 512 <= contentEnd <= |content|
    requires var pos := |TextTo(es, |es|)|;
             && !AllZeros(content[pos..pos + 512])
             && Offence(t, es, content[pos..pos + 512], content[pos + 512..contentEnd], allowUnknown) == Some(code)
    ensures OneHeader(t, content, contentEnd, allowUnknown, At(t, es, |es|)) == Halt(Refuses(code))
  {
    hide EntryImage, Padding, TextTo, NameOf, Targets, AllZeros;
    var pos := |TextTo(es, |es|)|;
    var header, left := content[pos..pos + 512], content[pos + 512..contentEnd];
    if t.sizeField(header).Some? && t.sizeField(header).value <= |left| {
      var size := t.sizeField(header).value;
      var e := Entry(header, left[..size], []);
      assert left[..size] == content[pos + 512..pos + 512 + size];
      SameAt(t, es, e);
      NameAt(t, es + [e], |es|);
      assert (es + [e])[|es|] == e;
    }
  }
}