/** Exactly which documents the writer accepts, by paragraphs, rows, cells and list items. */
module OdfValidity {
  import opened Wrappers
  import opened OdfModel
  import opened OdfPlan
  import opened OdfLists
  import opened OdfDocument
  import opened OdfRoundTrip

  predicate RunIsSound(r: Run) {
    && r.properties.fontSizePoints >= 0.0
    && var color := r.properties.color;
       color == "" || (|color| == 6 && forall i :: 0 <= i < 6 ==> color[i] in "0123456789abcdefABCDEF")
  }

  /** Nine levels; a continuation belongs to a list, and lists have identifiers from zero on. */
  predicate IsSound(p: Paragraph) {
    && 0 <= p.numberingLevel <= 8
    && (p.numberingContinuation ==> p.numberingId.Some?)
    && (p.numberingId.Some? ==> p.numberingId.value >= 0)
    && forall r :: r in p.runs ==> RunIsSound(r)
  }

  /** The item at `j` is still open at `k`: the list is not interrupted, and no item above its level comes between. */
  ghost predicate Continues(ps: seq<Paragraph>, j: nat, k: nat)
    requires j < k < |ps|
  {
    && ps[j].numberingLevel == ps[k].numberingLevel && !ps[j].numberingContinuation
    && forall m :: j <= m < k ==>
         && ps[m].numberingId == ps[k].numberingId
         && (ps[m].numberingContinuation || ps[m].numberingLevel >= ps[k].numberingLevel)
  }

  ghost predicate HasOpenItem(ps: seq<Paragraph>, k: nat)
    requires k < |ps|
  {
    exists j :: 0 <= j < k && Continues(ps, j, k)
  }

  ghost predicate ContinuationsAreSound(ps: seq<Paragraph>) {
    forall k :: 0 <= k < |ps| && ps[k].numberingContinuation ==> HasOpenItem(ps, k)
  }

  ghost predicate TableIsSound(t: Table) {
    t.rows != [] && forall i :: 0 <= i < |t.rows| ==> RowIsSound(t.rows[i])
  }

  ghost predicate RowIsSound(r: Row) {
    r.cells != [] && forall j :: 0 <= j < |r.cells| ==> ContinuationsAreSound(r.cells[j].paragraphs)
  }

  lemma ParagraphIsSound(p: Paragraph)
    ensures ParagraphIsValid(p) <==> IsSound(p)
  {
    forall r: Run ensures PropertiesAreValid(r.properties) <==> RunIsSound(r) { RunIsSoundIf(r); }
    hide PropertiesAreValid, RunIsSound;
  }

  lemma RunIsSoundIf(r: Run)
    ensures PropertiesAreValid(r.properties) <==> RunIsSound(r)
  {
  }

  lemma ContinuationIsSound(ps: seq<Paragraph>, k: nat)
    requires k < |ps| && ps[k].numberingContinuation && forall i :: 0 <= i < |ps| ==> IsSound(ps[i])
    ensures Accepted(ps, k) <==> HasOpenItem(ps, k)
  {
    hide RunIsSound;
    var id, level := ps[k].numberingId.value, ps[k].numberingLevel;
    forall j | 0 <= j < k ensures ItemSince(ps, j, k, id, level) <==> Continues(ps, j, k) {
      assert IsSound(ps[k]);
    }
  }

  lemma SequenceIsSound(ps: seq<Paragraph>)
    ensures ParagraphsAreValid(ps) <==> (forall k :: 0 <= k < |ps| ==> IsSound(ps[k])) && ContinuationsAreSound(ps)
  {
    hide ParagraphIsValid, IsSound, HasOpenItem;
    forall k | 0 <= k < |ps| ensures ParagraphIsValid(ps[k]) <==> IsSound(ps[k]) { ParagraphIsSound(ps[k]); }
    if forall k :: 0 <= k < |ps| ==> IsSound(ps[k]) {
      forall k | 0 <= k < |ps| ensures Accepted(ps, k) <==> (ps[k].numberingContinuation ==> HasOpenItem(ps, k)) {
        assert IsSound(ps[k]);
        if ps[k].numberingContinuation { ContinuationIsSound(ps, k); }
      }
    }
  }

  /** A document is accepted if and only if all its paragraphs, in cells or not, are sound, no table is without rows and
      no row without cells, and every continuation in the body or in a cell has an open item of its level. */
  lemma AcceptedExactlyIf(bs: seq<Block>)
    ensures DocumentIsValid(bs)
      <==> && (forall p :: p in AllParagraphs(bs) ==> IsSound(p))
           && ContinuationsAreSound(AsParagraphs(bs))
           && forall b :: 0 <= b < |bs| && bs[b].TableBlock? ==> TableIsSound(bs[b].table)
  {
    hide AllParagraphs, IsSound, ContinuationsAreSound, TableIsSound, TableIsValid, ParagraphsAreValid;
    SequenceIsSound(AsParagraphs(bs));
    if DocumentIsValid(bs) {
      forall p | p in AllParagraphs(bs) ensures IsSound(p) { SoundInValid(bs, p); }
      forall b | 0 <= b < |bs| && bs[b].TableBlock? ensures TableIsSound(bs[b].table) { TableSoundIf(bs[b].table); }
    }
    if forall p :: p in AllParagraphs(bs) ==> IsSound(p) {
      NothingIsSound();
      forall k | 0 <= k < |bs| ensures IsSound(AsParagraphs(bs)[k]) { if bs[k].ParagraphBlock? { InBody(bs, k); } }
      forall b | 0 <= b < |bs| && bs[b].TableBlock? ensures TableIsValid(bs[b].table) <==> TableIsSound(bs[b].table) {
        TableSoundIf(bs[b].table);
        CellsSoundIn(bs, b);
      }
    }
  }

  lemma NothingIsSound()
    ensures IsSound(EMPTY_PARAGRAPH)
  {
  }

  ghost predicate CellsAreSound(t: Table) {
    forall i, j, k | 0 <= i < |t.rows| && 0 <= j < |t.rows[i].cells| && 0 <= k < |t.rows[i].cells[j].paragraphs| ::
      IsSound(t.rows[i].cells[j].paragraphs[k])
  }

  lemma TableSoundIf(t: Table)
    ensures TableIsValid(t) ==> TableIsSound(t) && CellsAreSound(t)
    ensures CellsAreSound(t) && TableIsSound(t) ==> TableIsValid(t)
  {
    hide IsSound, ContinuationsAreSound, ParagraphsAreValid;
    forall i, j | 0 <= i < |t.rows| && 0 <= j < |t.rows[i].cells|
      ensures var ps := t.rows[i].cells[j].paragraphs;
              ParagraphsAreValid(ps) <==> (forall k :: 0 <= k < |ps| ==> IsSound(ps[k])) && ContinuationsAreSound(ps)
    {
      SequenceIsSound(t.rows[i].cells[j].paragraphs);
    }
    if TableIsValid(t) {
      forall i | 0 <= i < |t.rows| ensures RowIsSound(t.rows[i]) && RowIsValid(t.rows[i]) {}
    }
    if CellsAreSound(t) && TableIsSound(t) {
      forall i | 0 <= i < |t.rows| ensures RowIsValid(t.rows[i]) { assert RowIsSound(t.rows[i]); }
    }
  }

  lemma CellsSoundIn(bs: seq<Block>, b: nat)
    requires b < |bs| && bs[b].TableBlock? && forall p :: p in AllParagraphs(bs) ==> IsSound(p)
    ensures CellsAreSound(bs[b].table)
  {
    hide AllParagraphs, IsSound;
    var t := bs[b].table;
    forall i, j, k | 0 <= i < |t.rows| && 0 <= j < |t.rows[i].cells| && 0 <= k < |t.rows[i].cells[j].paragraphs|
      ensures IsSound(t.rows[i].cells[j].paragraphs[k])
    {
      InTable(bs, b, i, j, k);
    }
  }

  lemma SoundInValid(bs: seq<Block>, p: Paragraph)
    requires DocumentIsValid(bs) && p in AllParagraphs(bs)
    ensures IsSound(p)
  {
    hide AllParagraphs, IsSound, ContinuationsAreSound, TableIsValid, ParagraphsAreValid;
    Somewhere(bs, p);
    if b :| 0 <= b < |bs| && bs[b].ParagraphBlock? && bs[b].paragraph == p {
      SequenceIsSound(AsParagraphs(bs));
      assert AsParagraphs(bs)[b] == p;
    } else {
      var b, i, j, k :| IsAt(bs, b, i, j, k, p);
      TableSoundIf(bs[b].table);
    }
  }
}
