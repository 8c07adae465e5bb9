/** `export_to_anki_csv`: the (Front, Back) pair built for every row, after
    every missing cell has been replaced by the empty string. */
module Export {
  import opened Options
  import opened Seqs
  import opened Records

  datatype Card = Card(front: string, back: string)

  /** A cell after `fillna('')`. */
  function Text(c: Cell): string {
    c.GetOr("")
  }

  /** Five labelled fields one after the other: each field can be found in
      the text, which ends with the last label and the last field. */
  function Layout(l1: string, a: string, l2: string, b: string, l3: string, c: string,
                  l4: string, d: string, l5: string, e: string): (t: string)
    ensures Contains(t, a) && Contains(t, b) && Contains(t, c) && Contains(t, d) && Contains(t, e)
    ensures |t| >= |l5| + |e| && t[|t| - |l5| - |e|..] == l5 + e
  {
    var p1 := l1 + a;
    var p2 := p1 + l2 + b;
    var p3 := p2 + l3 + c;
    var p4 := p3 + l4 + d;
    var t := p4 + l5 + e;
    assert p1 <= p2 <= p3 <= p4 <= t;
    ContainsEnd(l1, a, t);
    ContainsEnd(p1 + l2, b, t);
    ContainsEnd(p2 + l3, c, t);
    ContainsEnd(p3 + l4, d, t);
    ContainsEnd(p4 + l5, e, t);
    assert t[|p4|..] == l5 + e;
    t
  }

  /** The back of a default card. Every field written into it can be found
      in it, and it ends with the notes after their label. */
  function DefaultBack(rom: string, m: string, mn: string, vis: string, no: string): (back: string)
    ensures Contains(back, rom) && Contains(back, m) && Contains(back, mn) && Contains(back, vis) && Contains(back, no)
    ensures |back| >= |no| + 9 && back[|back| - |no| - 9..] == "\n\nNotes: " + no
  {
    Layout("Romanization: ", rom, "\n\nMeaning: ", m, "\n\nMnemonic: ", mn, "\n\nVisual: ", vis, "\n\nNotes: ", no)
  }

  /** The back of a reversed card. Every field written into it can be found
      in it, and it ends with the notes after their label. */
  function ReverseBack(w: string, rom: string, mn: string, vis: string, no: string): (back: string)
    ensures Contains(back, w) && Contains(back, rom) && Contains(back, mn) && Contains(back, vis) && Contains(back, no)
    ensures |back| >= |no| + 9 && back[|back| - |no| - 9..] == "\n\nNotes: " + no
  {
    Layout("Korean: ", w, " (", rom, ")\n\nMnemonic: ", mn, "\n\nVisual: ", vis, "\n\nNotes: ", no)
  }

  /** The card of one row: by default the word on the front, otherwise
      (`reverse`) the meaning on the front. The back holds every other study
      field of the row as it is written, and ends with its notes. */
  function ToCard(r: Record, reverse: bool): (c: Card)
    ensures c.front == if reverse then Text(r.meaning) else Text(r.koreanWord)
    ensures && Contains(c.back, Text(r.romanization))
            && Contains(c.back, if reverse then Text(r.koreanWord) else Text(r.meaning))
            && Contains(c.back, Text(r.mnemonic))
            && Contains(c.back, Text(r.visual))
            && Contains(c.back, Text(r.notes))
    ensures |c.back| >= |Text(r.notes)| + 9 && c.back[|c.back| - |Text(r.notes)| - 9..] == "\n\nNotes: " + Text(r.notes)
  {
    if reverse then
      Card(Text(r.meaning),
           ReverseBack(Text(r.koreanWord), Text(r.romanization), Text(r.mnemonic), Text(r.visual), Text(r.notes)))
    else
      Card(Text(r.koreanWord),
           DefaultBack(Text(r.romanization), Text(r.meaning), Text(r.mnemonic), Text(r.visual), Text(r.notes)))
  }

  /** The exported rows: one card per table row, in table order. */
  function ExportCards(rows: seq<Record>, reverse: bool): (cards: seq<Card>)
    ensures |cards| == |rows|
    ensures forall i :: 0 <= i < |rows| ==> cards[i] == ToCard(rows[i], reverse)
  {
    if rows == [] then []
    else [ToCard(rows[0], reverse)] + ExportCards(rows[1..], reverse)
  }

  /** A missing cell renders exactly as an empty one: two rows whose cells
      read the same after `fillna('')` give the same card. */
  lemma MissingRendersEmpty(r1: Record, r2: Record, reverse: bool)
    requires Text(r1.koreanWord) == Text(r2.koreanWord) && Text(r1.romanization) == Text(r2.romanization)
    requires Text(r1.meaning) == Text(r2.meaning) && Text(r1.mnemonic) == Text(r2.mnemonic)
    requires Text(r1.visual) == Text(r2.visual) && Text(r1.notes) == Text(r2.notes)
    ensures ToCard(r1, reverse) == ToCard(r2, reverse)
  {
  }

  /** The card of a row without notes ends in the bare label. */
  lemma NoNotesEndsWithLabel(r: Record, reverse: bool)
    requires r.notes.None? || r.notes == Some("")
    ensures var back := ToCard(r, reverse).back;
            |back| >= 7 && back[|back| - 7..] == "Notes: "
  {
  }

  /** The default card of the example row: front "안녕", the meaning, the
      mnemonic and the visual on the back, and an empty note rather than a
      null marker. */
  lemma ExampleCard()
    ensures var card := ToCard(Record(Some("안녕"), Some("annyeong"), Some("hello"), Some("wave"), Some("bow"), Some(""), None), false);
            && card.front == "안녕"
            && Contains(card.back, "hello") && Contains(card.back, "wave") && Contains(card.back, "bow")
            && card.back[|card.back| - 7..] == "Notes: "
  {
    var r := Record(Some("안녕"), Some("annyeong"), Some("hello"), Some("wave"), Some("bow"), Some(""), None);
    NoNotesEndsWithLabel(r, false);
  }
}
