/** Nothing that a written document names is left undeclared, and which of several declarations the reader takes. */
module OdfDeclarations {
  import opened Wrappers
  import opened Decimal
  import opened Unicode
  import opened XmlBytes
  import opened OdfStyles
  import opened OdfModel
  import opened OdfWriter
  import opened OdfLists
  import opened OdfPlan

  // ---------------------------------------------------------------- what the writer declares

  ghost predicate SpansAreDeclared(content: seq<Inline>, styles: StyleMap) {
    forall k :: 0 <= k < |content| ==>
      content[k].Span? && NameIsDeclared(content[k].styleName, styles)
  }

  /** A written document declares the style of each of its paragraphs, and that of each span that names one. */
  lemma EveryStyleIsDeclared(bs: seq<Block>, p: Paragraph)
    requires p in AllParagraphs(bs) && AreWritable(p.runs)
    ensures var styles, written := WrittenStyles(PlanOf(bs)), PlannedParagraph(PlanOf(bs), p);
            && written.Some? && StyleKey("paragraph", written.value.styleName) in styles
            && SpansAreDeclared(written.value.content, styles)
  {
    hide PlanOf, AllParagraphs, AreWritable, WrittenStyles, NumberOf, SpansAreDeclared, WrittenRuns, RunNames, HeadingLevel;
    var plan := PlanOf(bs);
    PlanIsExact(bs);
    ParagraphStyleUnder(plan, WrittenStyleName(p, GeneratedName(plan, p)));
    WritableRuns(p.runs, RunNames(plan));
    forall r ensures NameIsDeclared(RunNames(plan)(r), WrittenStyles(plan)) { RunNameIsDeclared(plan, r); }
    SpansOf(RunNames(plan), WrittenStyles(plan), p.runs);
  }

  lemma {:induction false} SpansOf(names: RunStyleNames, styles: StyleMap, runs: seq<Run>)
    requires WrittenRuns(runs, names).Some?
    requires forall r :: NameIsDeclared(names(r), styles)
    ensures SpansAreDeclared(WrittenRuns(runs, names).value, styles)
  {
    if runs != [] {
      hide Decode, AllXmlScalars, WrittenText;
      SpansOf(names, styles, runs[1..]);
      assert NameIsDeclared(names(runs[0].properties), styles);
    }
  }

  predicate NameIsDeclared(name: string, styles: StyleMap) { name == "" || StyleKey("text", name) in styles }

  lemma RunNameIsDeclared(plan: Plan, r: RunProperties)
    ensures NameIsDeclared(RunNames(plan)(r), WrittenStyles(plan))
  {
    hide WrittenStyles, HasRunProperties, RunName, RunStyle;
    if HasRunProperties(r) && r in plan.runStyles { RunStyleUnder(plan, Position(plan.runStyles, r)); }
  }

  /** It declares a font face for each font that one of its styles names. */
  lemma EveryFontIsDeclared(bs: seq<Block>, e: StyleElement)
    requires e in AutomaticStyles(PlanOf(bs)) && e.style.fontFamily.Some?
    ensures e.style.fontFamily.value in FacesOf(PlanOf(bs).fonts)
  {
    hide PlanOf, AllParagraphs, StrippedFont, WrittenPoints, ReadColor, HasRunProperties;
    var plan, ps := PlanOf(bs), AllParagraphs(bs);
    PlanIsExact(bs);
    var i :| 0 <= i < |AutomaticStyles(plan)| && AutomaticStyles(plan)[i] == e;
    var r := plan.runStyles[i - |plan.paragraphStyles|];
    assert r in plan.runStyles;
    var p :| p in ps && Use(p.runs, r);
    assert IsFontOf(r, r.fontFamily) && UseFont(p.runs, r.fontFamily);
    StrippedQuoted(r.fontFamily);
  }

  /** The generated list styles of two lists have different names. */
  lemma ListStylesDiffer(a: int, b: int)
    requires a != b
    ensures GeneratedListStyle(a) != GeneratedListStyle(b)
    ensures 0 <= a < 10 ==> GeneratedListStyle(a) == "IGDL" + ["0123456789"[a]]
  {
    var s, t := GeneratedListStyle(a)[4..], GeneratedListStyle(b)[4..];
    assert s == IntegerText(a) && t == IntegerText(b);
    IntegerTextsDiffer(a, b);
  }

  function IntegerText(n: int): string { if n < 0 then "-" + ToText(-n) else ToText(n) }

  lemma IntegerTextsDiffer(a: int, b: int)
    requires a != b
    ensures IntegerText(a) != IntegerText(b)
  {
    hide ToText;
    var m, n := if a < 0 then -a else a, if b < 0 then -b else b;
    ValueOfText(m);
    ValueOfText(n);
    assert ("-" + ToText(m))[1..] == ToText(m) && ("-" + ToText(n))[1..] == ToText(n);
    assert IsDigit(ToText(m)[0]) && IsDigit(ToText(n)[0]) && !IsDigit('-');
  }

  /** A size comes back as the nearest one with four decimals, a tie upwards. */
  lemma PointsAreNearest(points: real, n: int)
    ensures var p := WrittenPoints(points);
            && HasFourDecimals(p)
            && -0.00005 < p - points <= 0.00005
            && (-0.00005 < n as real / 10000.0 - points <= 0.00005 ==> n as real / 10000.0 == p)
  {
    var m := (points * 10000.0 + 0.5).Floor;
    RoundedIsNearest(points * 10000.0, m, n);
    var p := WrittenPoints(points);
    assert p == m as real / 10000.0;
    assert p * 10000.0 == m as real && (m as real).Floor == m;
  }

  lemma RoundedIsNearest(x: real, m: int, n: int)
    requires m == (x + 0.5).Floor
    ensures -0.5 < m as real - x <= 0.5
    ensures -0.5 < n as real - x <= 0.5 ==> n == m
  {
  }

  // ---------------------------------------------------------------- what the reader takes

  ghost predicate IsLastOf(es: seq<StyleElement>, i: int, key: StyleKey) {
    DeclaresAt(es, i, key) && forall j :: i < j ==> !DeclaresAt(es, j, key)
  }

  /** A font is the face that the part declares, or else that of the other part, or else the name itself. */
  predicate IsFaceOf(found: Option<string>, named: Option<string>, faces: FontFaces, fallback: FontFaces) {
    match (named, found)
    case (None, None) => true
    case (Some(f), Some(face)) =>
      && (f in faces ==> face == faces[f])
      && (f !in faces && f in fallback ==> face == fallback[f])
      && (f !in faces && f !in fallback ==> face == f)
    case _ => false
  }

  /** The style of a name in a family is the last one declared for them in the part, if one is; a declaration without
      a name is none. */
  lemma TheLastDeclarationCounts(es: seq<StyleElement>, faces: FontFaces, fallback: FontFaces, styles: StyleMap, key: StyleKey)
    ensures var after := styles + AllFacesResolved(Declared(es), faces, fallback);
            && ((forall i :: !DeclaresAt(es, i, key)) ==>
                  (key in after <==> key in styles) && (key in after ==> after[key] == styles[key]))
            && (forall i :: IsLastOf(es, i, key) ==>
                  && key in after
                  && after[key].(fontFamily := None, eastAsiaFontFamily := None)
                     == es[i].style.(fontFamily := None, eastAsiaFontFamily := None)
                  && IsFaceOf(after[key].fontFamily, es[i].style.fontFamily, faces, fallback)
                  && IsFaceOf(after[key].eastAsiaFontFamily, es[i].style.eastAsiaFontFamily, faces, fallback))
  {
    hide Declared, DeclaresAt;
    LastDeclared(es, key);
  }

  lemma {:induction false} LastDeclared(es: seq<StyleElement>, key: StyleKey)
    ensures key in Declared(es) <==> exists i :: DeclaresAt(es, i, key)
    ensures forall i :: IsLastOf(es, i, key) ==> key in Declared(es) && Declared(es)[key] == es[i].style
  {
    if es != [] {
      var last := |es| - 1;
      LastDeclared(es[..last], key);
      OneMoreDeclaration(es, key);
      if DeclaresAt(es, last, key) {
        assert forall i :: IsLastOf(es, i, key) ==> i == last;
      } else {
        assert es[last].name == "" || KeyOf(es[last]) != key;
        hide IsLastOf, DeclaresAt;
        assert forall i :: DeclaresAt(es, i, key) <==> DeclaresAt(es[..last], i, key);
      }
    }
  }

  lemma OneMoreDeclaration(es: seq<StyleElement>, key: StyleKey)
    requires es != []
    ensures forall i :: DeclaresAt(es[..|es| - 1], i, key) <==> i != |es| - 1 && DeclaresAt(es, i, key)
    ensures !DeclaresAt(es, |es| - 1, key) ==> forall i :: IsLastOf(es, i, key) <==> IsLastOf(es[..|es| - 1], i, key)
  {
    var last := |es| - 1;
    forall i ensures DeclaresAt(es[..last], i, key) <==> i != last && DeclaresAt(es, i, key) {}
    hide DeclaresAt;
  }
}
