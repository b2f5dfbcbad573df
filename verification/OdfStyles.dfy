/** OpenDocument style inheritance: a walk along parent names that a missing parent, a repeated style or
    the nesting limit cuts off. */
module OdfStyles {
  import opened Wrappers

  const MAXIMUM_SEMANTIC_NESTING_DEPTH: nat := 128

  datatype Alignment = Automatic | Left | Center | Right | Justified

  /** StyleDefinition; an empty master page name is an unset one. */
  datatype Style = Style(
    family: string,
    parent: string,
    masterPageName: string,
    listStyleName: Option<string>,
    bold: Option<bool>,
    italic: Option<bool>,
    underline: Option<bool>,
    fontFamily: Option<string>,
    eastAsiaFontFamily: Option<string>,
    fontSizePoints: Option<real>,
    color: Option<string>,
    alignment: Option<Alignment>)

  const NO_STYLE := Style("", "", "", None, None, None, None, None, None, None, None, None)

  /** Family and name. */
  datatype StyleKey = StyleKey(family: string, name: string)

  type StyleMap = map<StyleKey, Style>

  function Either<T>(own: Option<T>, inherited: Option<T>): Option<T> { if own.Some? then own else inherited }

  /** overlayStyle: whatever the overlay sets wins. */
  function Overlay(base: Style, overlay: Style): Style {
    base.(masterPageName := if overlay.masterPageName != "" then overlay.masterPageName else base.masterPageName,
          listStyleName := Either(overlay.listStyleName, base.listStyleName),
          bold := Either(overlay.bold, base.bold),
          italic := Either(overlay.italic, base.italic),
          underline := Either(overlay.underline, base.underline),
          fontFamily := Either(overlay.fontFamily, base.fontFamily),
          eastAsiaFontFamily := Either(overlay.eastAsiaFontFamily, base.eastAsiaFontFamily),
          fontSizePoints := Either(overlay.fontSizePoints, base.fontSizePoints),
          color := Either(overlay.color, base.color),
          alignment := Either(overlay.alignment, base.alignment))
  }

  // ---------------------------------------------------------------- resolving

  function ResolveFrom(styles: StyleMap, family: string, name: string, resolving: set<StyleKey>, depth: nat): Style
    decreases MAXIMUM_SEMANTIC_NESTING_DEPTH + 1 - depth
  {
    var key := StyleKey(family, name);
    if depth > MAXIMUM_SEMANTIC_NESTING_DEPTH || key !in styles || key in resolving then NO_STYLE
    else
      var found := styles[key];
      var inherited := if found.parent == "" then NO_STYLE
                       else ResolveFrom(styles, family, found.parent, resolving + {key}, depth + 1);
      Overlay(inherited, found).(family := found.family, parent := found.parent)
  }

  /** The style in effect under a name. */
  function Resolve(styles: StyleMap, family: string, name: string): Style {
    ResolveFrom(styles, family, name, {}, 0)
  }

  /** The parents of a style go on beyond the nesting limit. The limit is tested before anything is looked up. */
  predicate TooDeepFrom(styles: StyleMap, family: string, name: string, resolving: set<StyleKey>, depth: nat)
    decreases MAXIMUM_SEMANTIC_NESTING_DEPTH + 1 - depth
  {
    var key := StyleKey(family, name);
    if depth > MAXIMUM_SEMANTIC_NESTING_DEPTH then true
    else if key !in styles || key in resolving then false
    else styles[key].parent != "" && TooDeepFrom(styles, family, styles[key].parent, resolving + {key}, depth + 1)
  }

  /** Resolving the style reports an error. */
  predicate TooDeep(styles: StyleMap, family: string, name: string) { TooDeepFrom(styles, family, name, {}, 0) }

  /** The set of keys being resolved, which the recursion shares. */
  class KeySet {
    var keys: set<StyleKey>

    constructor ()
      ensures keys == {}
    {
      keys := {};
    }
  }

  /** resolveStyle: the shared set is as it was when the call returns, cyclic styles or not; an error is reported
      exactly when the limit cuts the walk. */
  method ResolveStyle(styles: StyleMap, family: string, name: string, resolving: KeySet, depth: nat)
    returns (result: Style, tooDeep: bool)
    modifies resolving
    ensures result == ResolveFrom(styles, family, name, old(resolving.keys), depth)
    ensures tooDeep == TooDeepFrom(styles, family, name, old(resolving.keys), depth)
    ensures resolving.keys == old(resolving.keys)
    decreases MAXIMUM_SEMANTIC_NESTING_DEPTH + 1 - depth
  {
    if depth > MAXIMUM_SEMANTIC_NESTING_DEPTH { return NO_STYLE, true; }
    var key := StyleKey(family, name);
    if key !in styles { return NO_STYLE, false; }
    if key in resolving.keys { return NO_STYLE, false; }
    resolving.keys := resolving.keys + {key};
    result, tooDeep := NO_STYLE, false;
    if styles[key].parent != "" {
      result, tooDeep := ResolveStyle(styles, family, styles[key].parent, resolving, depth + 1);
    }
    result := Overlay(result, styles[key]).(family := styles[key].family, parent := styles[key].parent);
    resolving.keys := resolving.keys - {key};
  }

  // ---------------------------------------------------------------- what the result is

  /** Each key but the last names its successor as its parent. */
  ghost predicate IsParentWalk(styles: StyleMap, family: string, walk: seq<StyleKey>) {
    && (forall k :: 0 <= k < |walk| ==> walk[k] in styles)
    && (forall k :: 0 <= k < |walk| - 1 ==>
          styles[walk[k]].parent != "" && walk[k + 1] == StyleKey(family, styles[walk[k]].parent))
    && (forall k, l :: 0 <= k < l < |walk| ==> walk[k] != walk[l])
  }

  /** The walk cannot go on: no parent, a missing one, a repeated one, or 129 styles. */
  ghost predicate IsCutOff(styles: StyleMap, family: string, walk: seq<StyleKey>)
    requires walk != [] && walk[|walk| - 1] in styles
  {
    var parent := styles[walk[|walk| - 1]].parent;
    parent == "" || StyleKey(family, parent) !in styles || StyleKey(family, parent) in walk
    || |walk| == MAXIMUM_SEMANTIC_NESTING_DEPTH + 1
  }

  /** The walk from a style up its parents, as far as inheritance follows it. */
  ghost predicate IsInheritance(styles: StyleMap, family: string, name: string, walk: seq<StyleKey>) {
    && IsParentWalk(styles, family, walk)
    && |walk| <= MAXIMUM_SEMANTIC_NESTING_DEPTH + 1
    && (walk == [] <==> StyleKey(family, name) !in styles)
    && (walk != [] ==> walk[0] == StyleKey(family, name) && IsCutOff(styles, family, walk))
  }

  datatype Field =
    | MasterPageName | ListStyleName | Bold | Italic | Underline | FontFamily | EastAsiaFontFamily
    | FontSizePoints | Color | ParagraphAlignment

  datatype Value = Text(text: string) | Flag(flag: bool) | Number(number: real) | Align(alignment: Alignment)

  function Map<S, T>(o: Option<S>, f: S -> T): Option<T> { match o case None => None case Some(v) => Some(f(v)) }

  function Get(s: Style, f: Field): Option<Value> {
    match f
    case MasterPageName => if s.masterPageName == "" then None else Some(Text(s.masterPageName))
    case ListStyleName => Map(s.listStyleName, v => Text(v))
    case Bold => Map(s.bold, v => Flag(v))
    case Italic => Map(s.italic, v => Flag(v))
    case Underline => Map(s.underline, v => Flag(v))
    case FontFamily => Map(s.fontFamily, v => Text(v))
    case EastAsiaFontFamily => Map(s.eastAsiaFontFamily, v => Text(v))
    case FontSizePoints => Map(s.fontSizePoints, v => Number(v))
    case Color => Map(s.color, v => Text(v))
    case ParagraphAlignment => Map(s.alignment, v => Align(v))
  }

  /** The value of the nearest style of the walk that sets the field. */
  ghost function Nearest(styles: StyleMap, walk: seq<StyleKey>, f: Field): Option<Value>
    requires forall k :: 0 <= k < |walk| ==> walk[k] in styles
  {
    if walk == [] then None
    else Either(Get(styles[walk[0]], f), Nearest(styles, walk[1..], f))
  }

  lemma OverlayPrefersOwn(base: Style, overlay: Style, f: Field)
    ensures Get(Overlay(base, overlay), f) == Either(Get(overlay, f), Get(base, f))
  {
  }

  /** The keys that ResolveFrom visits. */
  ghost function Visited(styles: StyleMap, family: string, name: string, resolving: set<StyleKey>, depth: nat)
    : (walk: seq<StyleKey>)
    ensures forall k :: 0 <= k < |walk| ==> walk[k] in styles && walk[k] !in resolving
    ensures walk != [] ==> walk[0] == StyleKey(family, name)
    decreases MAXIMUM_SEMANTIC_NESTING_DEPTH + 1 - depth
  {
    var key := StyleKey(family, name);
    if depth > MAXIMUM_SEMANTIC_NESTING_DEPTH || key !in styles || key in resolving then []
    else if styles[key].parent == "" then [key]
    else [key] + Visited(styles, family, styles[key].parent, resolving + {key}, depth + 1)
  }

  lemma {:induction false} VisitedIsParentWalk(
    styles: StyleMap, family: string, name: string, resolving: set<StyleKey>, depth: nat)
    ensures var walk := Visited(styles, family, name, resolving, depth);
            && IsParentWalk(styles, family, walk)
            && depth + |walk| <= Max(depth, MAXIMUM_SEMANTIC_NESTING_DEPTH + 1)
            && (walk == [] <==> depth > MAXIMUM_SEMANTIC_NESTING_DEPTH || StyleKey(family, name) !in styles
                                || StyleKey(family, name) in resolving)
            && (walk != [] ==>
                  var parent := styles[walk[|walk| - 1]].parent;
                  parent == "" || StyleKey(family, parent) !in styles || StyleKey(family, parent) in walk
                  || StyleKey(family, parent) in resolving
                  || depth + |walk| == MAXIMUM_SEMANTIC_NESTING_DEPTH + 1)
    decreases MAXIMUM_SEMANTIC_NESTING_DEPTH + 1 - depth
  {
    var key := StyleKey(family, name);
    var walk := Visited(styles, family, name, resolving, depth);
    if walk != [] && styles[key].parent != "" {
      var rest := Visited(styles, family, styles[key].parent, resolving + {key}, depth + 1);
      VisitedIsParentWalk(styles, family, styles[key].parent, resolving + {key}, depth + 1);
      assert walk == [key] + rest;
      WalkFrom(styles, family, key, rest);
      hide IsParentWalk, Visited;
      if rest != [] { assert walk[|walk| - 1] == rest[|rest| - 1]; }
    }
  }

  lemma WalkFrom(styles: StyleMap, family: string, key: StyleKey, rest: seq<StyleKey>)
    requires key in styles && IsParentWalk(styles, family, rest) && key !in rest
    requires rest != [] ==> styles[key].parent != "" && rest[0] == StyleKey(family, styles[key].parent)
    ensures IsParentWalk(styles, family, [key] + rest)
  {
    var walk := [key] + rest;
    assert forall k :: 0 < k < |walk| ==> walk[k] == rest[k - 1];
  }

  lemma {:induction false} ResolveFollowsWalk(
    styles: StyleMap, family: string, name: string, resolving: set<StyleKey>, depth: nat, f: Field)
    ensures Get(ResolveFrom(styles, family, name, resolving, depth), f)
         == Nearest(styles, Visited(styles, family, name, resolving, depth), f)
    decreases MAXIMUM_SEMANTIC_NESTING_DEPTH + 1 - depth
  {
    var key := StyleKey(family, name);
    var walk := Visited(styles, family, name, resolving, depth);
    if walk != [] {
      var found := styles[key];
      if found.parent != "" {
        ResolveFollowsWalk(styles, family, found.parent, resolving + {key}, depth + 1, f);
        assert walk[1..] == Visited(styles, family, found.parent, resolving + {key}, depth + 1);
        OverlayPrefersOwn(ResolveFrom(styles, family, found.parent, resolving + {key}, depth + 1), found, f);
      } else {
        OverlayPrefersOwn(NO_STYLE, found, f);
      }
    }
  }

  lemma {:induction false} WalkIsUnique(
    styles: StyleMap, family: string, name: string, a: seq<StyleKey>, b: seq<StyleKey>, k: nat)
    requires IsInheritance(styles, family, name, a) && IsInheritance(styles, family, name, b)
    requires k <= |a|
    ensures k <= |b| && a[..k] == b[..k]
  {
    if k > 0 {
      WalkIsUnique(styles, family, name, a, b, k - 1);
      if k > 1 {
        var before := a[k - 2];
        assert before == a[..k - 1][k - 2] == b[..k - 1][k - 2] == b[k - 2];
      }
      assert a[..k] == a[..k - 1] + [a[k - 1]] && b[..k] == b[..k - 1] + [b[k - 1]];
    }
  }

  /** For every style map, cyclic or not: there is exactly one walk that inheritance follows, and every
      field of the resolved style is the value of the nearest style on it that sets the field. Family and
      parent are the style's own. */
  lemma ResolveIsNearestSetting(styles: StyleMap, family: string, name: string, walk: seq<StyleKey>)
    ensures IsInheritance(styles, family, name, Visited(styles, family, name, {}, 0))
    ensures IsInheritance(styles, family, name, walk) ==>
              var resolved := Resolve(styles, family, name);
              && (forall f :: Get(resolved, f) == Nearest(styles, walk, f))
              && (if walk == [] then resolved == NO_STYLE
                  else resolved.family == styles[walk[0]].family && resolved.parent == styles[walk[0]].parent)
  {
    hide Get, Nearest, Overlay;
    var visited := Visited(styles, family, name, {}, 0);
    VisitedIsInheritance(styles, family, name);
    if IsInheritance(styles, family, name, walk) {
      hide Visited, ResolveFrom;
      WalkIsUnique(styles, family, name, walk, visited, |walk|);
      WalkIsUnique(styles, family, name, visited, walk, |visited|);
      assert walk[..|walk|] == walk && visited[..|visited|] == visited;
      forall f ensures Get(Resolve(styles, family, name), f) == Nearest(styles, walk, f) {
        ResolveFollowsWalk(styles, family, name, {}, 0, f);
      }
      ResolvedNames(styles, family, name);
    }
  }

  lemma {:induction false} TooDeepAlongWalk(
    styles: StyleMap, family: string, name: string, resolving: set<StyleKey>, depth: nat)
    requires depth <= MAXIMUM_SEMANTIC_NESTING_DEPTH + 1
    ensures var walk := Visited(styles, family, name, resolving, depth);
            TooDeepFrom(styles, family, name, resolving, depth)
            <==> && depth + |walk| == MAXIMUM_SEMANTIC_NESTING_DEPTH + 1
                 && (walk != [] ==> styles[walk[|walk| - 1]].parent != "")
    decreases MAXIMUM_SEMANTIC_NESTING_DEPTH + 1 - depth
  {
    var key := StyleKey(family, name);
    var walk := Visited(styles, family, name, resolving, depth);
    if walk != [] && styles[key].parent != "" {
      var rest := Visited(styles, family, styles[key].parent, resolving + {key}, depth + 1);
      TooDeepAlongWalk(styles, family, styles[key].parent, resolving + {key}, depth + 1);
      assert walk == [key] + rest;
      if rest != [] { assert walk[|walk| - 1] == rest[|rest| - 1]; }
    }
  }

  /** Each style but the last names its successor as its parent; there are 129, all different, and the last one names
      a parent too, whether there is such a style or not. */
  ghost predicate IsOverlongWalk(styles: StyleMap, family: string, name: string, walk: seq<StyleKey>) {
    && IsParentWalk(styles, family, walk)
    && |walk| == MAXIMUM_SEMANTIC_NESTING_DEPTH + 1
    && walk[0] == StyleKey(family, name)
    && styles[walk[|walk| - 1]].parent != ""
  }

  /** Resolving a style reports an error exactly when 129 different styles follow from it, parent by parent, and the
      last of them has a parent. */
  lemma TooDeepIsOverlongWalk(styles: StyleMap, family: string, name: string)
    ensures TooDeep(styles, family, name) <==> exists walk :: IsOverlongWalk(styles, family, name, walk)
  {
    hide Visited, TooDeepFrom;
    var visited := Visited(styles, family, name, {}, 0);
    TooDeepAlongWalk(styles, family, name, {}, 0);
    VisitedIsInheritance(styles, family, name);
    if TooDeep(styles, family, name) { assert IsOverlongWalk(styles, family, name, visited); }
    if walk :| IsOverlongWalk(styles, family, name, walk) {
      assert IsInheritance(styles, family, name, walk);
      hide IsInheritance, IsParentWalk;
      WalkIsUnique(styles, family, name, walk, visited, |walk|);
      WalkIsUnique(styles, family, name, visited, walk, |visited|);
      assert walk[..|walk|] == walk && visited[..|visited|] == visited;
    }
  }

  lemma VisitedIsInheritance(styles: StyleMap, family: string, name: string)
    ensures IsInheritance(styles, family, name, Visited(styles, family, name, {}, 0))
  {
    hide Visited;
    VisitedIsParentWalk(styles, family, name, {}, 0);
  }

  lemma ResolvedNames(styles: StyleMap, family: string, name: string)
    ensures var resolved, key := Resolve(styles, family, name), StyleKey(family, name);
            if key !in styles then resolved == NO_STYLE
            else resolved.family == styles[key].family && resolved.parent == styles[key].parent
  {
    hide Overlay;
  }
}
