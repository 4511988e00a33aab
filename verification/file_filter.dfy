/**
  The per-file decisions taken before and around structural matching: the
  size cutoff, the skip step after reading a file, the empty-hit-set filter,
  the fixed-string rejection, and the assembly of the per-layer result lists
  for a file and the documents injected into it.

  Reading files, deciding a file's language, finding injected documents,
  the combined multi-rule scan and structural pattern search are foreign
  operations and enter as function parameters. A parsed document is
  identified by its language and the text it was parsed from.
*/
module FileFilter {
  import opened Wrappers
  import opened Text
  import opened Seqs

  type Path = string

  /** A language (grammar), identified by name. */
  datatype Lang = Lang(name: string)

  /** A parsed document: parsing is deterministic, so the language and source text determine it. */
  datatype Tree = Tree(lang: Lang, source: string)

  /** The result of a combined scan: the indices of the rules with at least one hit. */
  datatype PreScan = PreScan(hitSet: set<nat>)

  /** One layer of a file ready for detailed matching with the rules of a configuration. */
  datatype ScanUnit = ScanUnit(path: Path, grep: Tree, preScan: PreScan)

  /** One layer of a file ready for matching with a single pattern. */
  datatype MatchUnit<P> = MatchUnit(path: Path, grep: Tree, matcher: P)

  /** The foreign operations the per-file filters consult. */
  datatype Host = Host(
    langOf: Path -> Option<Lang>,         // the language a file name maps to
    readToString: Path -> Option<string>, // reading a file; None when reading fails
    injectable: Lang -> Option<seq<Lang>>,// languages that may be injected into a language
    injections: Tree -> seq<Tree>)        // documents injected into a document whose tag names a known language

  // ---------------------------------------------------------------------
  // Size cutoff and reading
  // ---------------------------------------------------------------------

  const MaxFileSize: nat := 3_000_000
  const MaxLineCount: nat := 200_000

  /** `file_too_large`: a file is too large only when it exceeds BOTH bounds. */
  function FileTooLarge(content: string): (b: bool)
    // at four bytes a character at most, a too-large file has over 750,000 characters
    ensures b ==> |content| > MaxFileSize / 4
  {
    ByteLength(content) > MaxFileSize && LineCount(content) > MaxLineCount
  }

  /** In terms of the lines `str::lines` yields: too many bytes and too many lines. */
  lemma FileTooLargeByLines(content: string)
    ensures FileTooLarge(content) <==> ByteLength(content) > MaxFileSize && |Lines(content)| > MaxLineCount
  {
    LineCountIsNumberOfLines(content);
  }

  /** One long line over the byte bound is still scanned. */
  lemma LongSingleLineKept()
    ensures var s := seq(MaxFileSize + 1, _ => 'a');
      ByteLength(s) > MaxFileSize && !FileTooLarge(s)
  {
    var s := seq(MaxFileSize + 1, _ => 'a');
    AsciiByteLength(s);
    SingleLine(s);
  }

  /** Many short lines under the byte bound are still scanned. */
  lemma ManyShortLinesKept()
    ensures var s := seq(MaxLineCount + 1, _ => '\n');
      LineCount(s) > MaxLineCount && !FileTooLarge(s)
  {
    var s := seq(MaxLineCount + 1, _ => '\n');
    AsciiByteLength(s);
    OnlyNewlines(s);
  }

  /** A file over both bounds is skipped. */
  lemma OverBothBoundsSkipped()
    ensures FileTooLarge(seq(MaxFileSize + 1, _ => '\n'))
  {
    var s := seq(MaxFileSize + 1, _ => '\n');
    AsciiByteLength(s);
    OnlyNewlines(s);
  }

  /**
    `read_file`: reads the file, then skips it (None) when reading failed,
    when the content is empty, or when it is too large; otherwise hands the
    content on unchanged.
  */
  function ReadFile(path: Path, host: Host): (r: Option<string>)
    ensures r.Some? <==> (
      && host.readToString(path).Some?
      && |host.readToString(path).value| > 0
      && (ByteLength(host.readToString(path).value) <= MaxFileSize || LineCount(host.readToString(path).value) <= MaxLineCount))
    ensures r.Some? ==> r.value == host.readToString(path).value
  {
    match host.readToString(path)
    case None => None
    case Some(content) =>
      if FileTooLarge(content) || content == "" then None else Some(content)
  }

  // ---------------------------------------------------------------------
  // Rule-driven filtering
  // ---------------------------------------------------------------------

  /**
    `filter`: runs the combined scan of the rules that apply to `path` in
    `lang` over the document and keeps it only when some rule hit.
  */
  function Filter(grep: Tree, path: Path, lang: Lang, scan: (Tree, Path, Lang) -> PreScan): (r: Option<PreScan>)
    ensures r.None? <==> scan(grep, path, lang).hitSet == {}
    ensures r.Some? ==> r.value == scan(grep, path, lang)
  {
    var preScan := scan(grep, path, lang);
    if preScan.hitSet == {} then None else Some(preScan)
  }

  /** `docs[i]` is in `lang`, and no earlier document is. */
  predicate FirstInLang(docs: seq<Tree>, lang: Lang, i: int)
  {
    0 <= i < |docs| && docs[i].lang == lang && forall j :: 0 <= j < i ==> docs[j].lang != lang
  }

  /** Iterator `find`: the first injected document of a language, if any. */
  function FindDoc(docs: seq<Tree>, lang: Lang): (r: Option<Tree>)
    ensures r.None? <==> forall i :: 0 <= i < |docs| ==> docs[i].lang != lang
    ensures r.Some? ==> r.value in docs && r.value.lang == lang
    ensures r.Some? ==> exists i :: FirstInLang(docs, lang, i) && docs[i] == r.value
  {
    if |docs| == 0 then None
    else if docs[0].lang == lang then
      assert FirstInLang(docs, lang, 0);
      Some(docs[0])
    else
      var r := FindDoc(docs[1..], lang);
      assert forall i :: 1 <= i < |docs| ==> docs[i] == docs[1..][i - 1];
      if r.Some? then
        var i :| FirstInLang(docs[1..], lang, i) && docs[1..][i] == r.value;
        assert FirstInLang(docs, lang, i + 1);
        r
      else
        r
  }

  /** The language of each unit's document. */
  function UnitLangs(units: seq<ScanUnit>): (langs: seq<Lang>)
    ensures |langs| == |units|
    ensures forall i :: 0 <= i < |units| ==> langs[i] == units[i].grep.lang
  {
    seq(|units|, i requires 0 <= i < |units| => units[i].grep.lang)
  }

  /** Every unit is for `path` and has a non-empty hit set. */
  predicate UnitsFor(path: Path, units: seq<ScanUnit>)
  {
    forall i :: 0 <= i < |units| ==> units[i].path == path && units[i].preScan.hitSet != {}
  }

  /**
    The `filter_map` closure of `filter_file_interactive` for one injectable
    language: the first injected document of that language, kept with its
    scan result when the rules for that language hit in it.
  */
  function InjectedUnit(path: Path, docs: seq<Tree>, scan: (Tree, Path, Lang) -> PreScan, l: Lang): (r: Option<ScanUnit>)
    ensures r.Some? <==> FindDoc(docs, l).Some? && scan(FindDoc(docs, l).value, path, l).hitSet != {}
    ensures r.Some? ==> r.value == ScanUnit(path, FindDoc(docs, l).value, scan(FindDoc(docs, l).value, path, l))
    ensures r.Some? ==> r.value.grep.lang == l && r.value.grep in docs
  {
    match FindDoc(docs, l)
    case None => None
    case Some(doc) =>
      match Filter(doc, path, l, scan)
      case None => None
      case Some(preScan) => Some(ScanUnit(path, doc, preScan))
  }

  // ---------------------------------------------------------------------
  // Exactly the results of a per-item step, in item order
  // ---------------------------------------------------------------------

  /** Every element of `us` is what `f` yields for its own key, and that key is one of `ls`. */
  ghost predicate SoundFor<L, U>(f: L -> Option<U>, key: U -> L, ls: seq<L>, us: seq<U>)
  {
    forall i :: 0 <= i < |us| ==> key(us[i]) in ls && f(key(us[i])) == Some(us[i])
  }

  /** Every item of `ls` for which `f` yields something contributes it to `us`. */
  ghost predicate CompleteFor<L, U>(f: L -> Option<U>, ls: seq<L>, us: seq<U>)
  {
    forall l :: l in ls && f(l).Some? ==> f(l).value in us
  }

  /** One more item in front, whose result (if any) carries its own key, keeps soundness. */
  lemma SoundForCons<L, U>(f: L -> Option<U>, key: U -> L, ls: seq<L>, rest: seq<U>)
    requires |ls| > 0
    requires SoundFor(f, key, ls[1..], rest)
    requires f(ls[0]).Some? ==> key(f(ls[0]).value) == ls[0]
    ensures SoundFor(f, key, ls, OptionToSeq(f(ls[0])) + rest)
  {
    var r := OptionToSeq(f(ls[0])) + rest;
    var k := |OptionToSeq(f(ls[0]))|;
    forall i | 0 <= i < |r|
      ensures key(r[i]) in ls && f(key(r[i])) == Some(r[i])
    {
      if i >= k {
        assert r[i] == rest[i - k];
        assert key(r[i]) in ls[1..];
      }
    }
  }

  /** One more item in front, with its result (if any) in front, keeps completeness. */
  lemma CompleteForCons<L, U>(f: L -> Option<U>, ls: seq<L>, rest: seq<U>)
    requires |ls| > 0
    requires CompleteFor(f, ls[1..], rest)
    ensures CompleteFor(f, ls, OptionToSeq(f(ls[0])) + rest)
  {
    var r := OptionToSeq(f(ls[0])) + rest;
    forall l | l in ls && f(l).Some?
      ensures f(l).value in r
    {
      if l != ls[0] {
        assert [ls[0]] + ls[1..] == ls;
        assert l in ls[1..];
      }
    }
  }

  /** Position `j` of `us` is what `f` yields for the item at position `idx[j]` of `ls`. */
  ghost predicate Picks<L, U>(f: L -> Option<U>, ls: seq<L>, us: seq<U>, idx: seq<nat>)
  {
    && |idx| == |us|
    && forall j :: 0 <= j < |idx| ==> idx[j] < |ls| && f(ls[idx[j]]) == Some(us[j])
  }

  /** The positions are strictly increasing. */
  ghost predicate Increasing(idx: seq<nat>)
  {
    forall j, k :: 0 <= j < k < |idx| ==> idx[j] < idx[k]
  }

  /** Every position of `ls` at which `f` yields something is listed. */
  ghost predicate CoversHits<L, U>(f: L -> Option<U>, ls: seq<L>, idx: seq<nat>)
  {
    forall i :: 0 <= i < |ls| && f(ls[i]).Some? ==> i in idx
  }

  /**
    `idx` lists, in strictly increasing order, exactly the positions of `ls`
    at which `f` yields something, and `us` holds those results position by
    position.
  */
  ghost predicate FilterMapWitness<L, U>(f: L -> Option<U>, ls: seq<L>, us: seq<U>, idx: seq<nat>)
  {
    Picks(f, ls, us, idx) && Increasing(idx) && CoversHits(f, ls, idx)
  }

  /** `us` is the filter-map of `ls` through `f`: every result, once each, in item order. */
  ghost predicate IsFilterMap<L, U>(f: L -> Option<U>, ls: seq<L>, us: seq<U>)
  {
    exists idx :: FilterMapWitness(f, ls, us, idx)
  }

  /** Every position moved one place up. */
  function ShiftUp(idx: seq<nat>): (r: seq<nat>)
    ensures |r| == |idx|
    ensures forall j :: 0 <= j < |idx| ==> r[j] == idx[j] + 1
  {
    seq(|idx|, j requires 0 <= j < |idx| => idx[j] + 1)
  }

  /** The positions of the tail's hits moved one place up, with position 0 in front when the head is a hit. */
  function ConsIndex(hit: bool, idx: seq<nat>): (r: seq<nat>)
    ensures |r| == (if hit then 1 else 0) + |idx|
    ensures hit ==> r[0] == 0
    ensures forall j :: 0 <= j < |idx| ==> r[j + (if hit then 1 else 0)] == idx[j] + 1
  {
    if hit then [0] + ShiftUp(idx) else ShiftUp(idx)
  }

  /** The positions after the first moved one place down, dropping position 0 when it is listed first. */
  function TailIndex(hit: bool, idx: seq<nat>): (r: seq<nat>)
    requires hit ==> |idx| > 0 && idx[0] == 0
    requires forall j :: (if hit then 1 else 0) <= j < |idx| ==> idx[j] > 0
    ensures |r| + (if hit then 1 else 0) == |idx|
    ensures forall j :: 0 <= j < |r| ==> r[j] + 1 == idx[j + (if hit then 1 else 0)]
  {
    var h := if hit then 1 else 0;
    seq(|idx| - h, j requires 0 <= j < |idx| - h => idx[j + h] - 1)
  }

  lemma PicksCons<L, U>(f: L -> Option<U>, ls: seq<L>, rest: seq<U>, idx: seq<nat>)
    requires |ls| > 0 && Picks(f, ls[1..], rest, idx)
    ensures Picks(f, ls, OptionToSeq(f(ls[0])) + rest, ConsIndex(f(ls[0]).Some?, idx))
  {
    var up := ShiftUp(idx);
    if f(ls[0]).Some? {
      var r := [0] + up;
      var us := [f(ls[0]).value] + rest;
      forall j | 0 <= j < |r|
        ensures r[j] < |ls| && f(ls[r[j]]) == Some(us[j])
      {
        if j > 0 {
          assert r[j] == up[j - 1] == idx[j - 1] + 1;
          assert us[j] == rest[j - 1];
          assert ls[r[j]] == ls[1..][idx[j - 1]];
        }
      }
    } else {
      assert OptionToSeq(f(ls[0])) + rest == rest;
      forall j | 0 <= j < |up|
        ensures up[j] < |ls| && f(ls[up[j]]) == Some(rest[j])
      {
        assert ls[up[j]] == ls[1..][idx[j]];
      }
    }
  }

  lemma IncreasingCons(hit: bool, idx: seq<nat>)
    requires Increasing(idx)
    ensures Increasing(ConsIndex(hit, idx))
  {
    var up := ShiftUp(idx);
    assert Increasing(up);
    if hit {
      var r := [0] + up;
      forall j, k | 0 <= j < k < |r|
        ensures r[j] < r[k]
      {
        assert r[k] == up[k - 1];
        if j > 0 {
          assert r[j] == up[j - 1];
        }
      }
    }
  }

  lemma CoversHitsCons<L, U>(f: L -> Option<U>, ls: seq<L>, idx: seq<nat>)
    requires |ls| > 0 && CoversHits(f, ls[1..], idx)
    ensures CoversHits(f, ls, ConsIndex(f(ls[0]).Some?, idx))
  {
    var hit := f(ls[0]).Some?;
    var up := ShiftUp(idx);
    var r := ConsIndex(hit, idx);
    forall i | 0 <= i < |ls| && f(ls[i]).Some?
      ensures i in r
    {
      if i == 0 {
        assert r[0] == 0;
      } else {
        assert ls[i] == ls[1..][i - 1];
        var j :| 0 <= j < |idx| && idx[j] == i - 1;
        if hit {
          assert r[j + 1] == up[j] == i;
        } else {
          assert r[j] == up[j] == i;
        }
      }
    }
  }

  /** Nothing filter-maps to nothing. */
  lemma FilterMapNil<L, U>(f: L -> Option<U>)
    ensures IsFilterMap(f, [], [])
  {
    assert FilterMapWitness(f, [], [], []);
  }

  /** One more item in front: its result, when there is one, goes in front of the others'. */
  lemma FilterMapCons<L, U>(f: L -> Option<U>, ls: seq<L>, rest: seq<U>)
    requires |ls| > 0
    requires IsFilterMap(f, ls[1..], rest)
    ensures IsFilterMap(f, ls, OptionToSeq(f(ls[0])) + rest)
  {
    var idx :| FilterMapWitness(f, ls[1..], rest, idx);
    PicksCons(f, ls, rest, idx);
    IncreasingCons(f(ls[0]).Some?, idx);
    CoversHitsCons(f, ls, idx);
    assert FilterMapWitness(f, ls, OptionToSeq(f(ls[0])) + rest, ConsIndex(f(ls[0]).Some?, idx));
  }

  /** A witness for `ls` lists position 0 first exactly when the first item is a hit, and never later. */
  lemma WitnessHead<L, U>(f: L -> Option<U>, ls: seq<L>, us: seq<U>, idx: seq<nat>)
    requires |ls| > 0 && FilterMapWitness(f, ls, us, idx)
    ensures f(ls[0]).Some? ==> |idx| > 0 && idx[0] == 0 && us[0] == f(ls[0]).value
    ensures forall j :: (if f(ls[0]).Some? then 1 else 0) <= j < |idx| ==> idx[j] > 0
  {
    if f(ls[0]).Some? {
      assert 0 in idx;
      var j0 :| 0 <= j0 < |idx| && idx[j0] == 0;
      forall j | 1 <= j < |idx|
        ensures idx[j] > 0
      {
        assert idx[0] < idx[j];
      }
    } else {
      forall j | 0 <= j < |idx|
        ensures idx[j] > 0
      {
        assert f(ls[idx[j]]).Some?;
      }
    }
  }

  lemma PicksTail<L, U>(f: L -> Option<U>, ls: seq<L>, us: seq<U>, idx: seq<nat>, hit: bool)
    requires |ls| > 0 && Picks(f, ls, us, idx)
    requires hit ==> |idx| > 0 && idx[0] == 0
    requires forall j :: (if hit then 1 else 0) <= j < |idx| ==> idx[j] > 0
    ensures Picks(f, ls[1..], us[(if hit then 1 else 0)..], TailIndex(hit, idx))
  {
    var h := if hit then 1 else 0;
    var r := TailIndex(hit, idx);
    forall j | 0 <= j < |r|
      ensures r[j] < |ls[1..]| && f(ls[1..][r[j]]) == Some(us[h..][j])
    {
      assert ls[1..][r[j]] == ls[idx[j + h]];
    }
  }

  lemma IncreasingTail(idx: seq<nat>, hit: bool)
    requires Increasing(idx)
    requires hit ==> |idx| > 0 && idx[0] == 0
    requires forall j :: (if hit then 1 else 0) <= j < |idx| ==> idx[j] > 0
    ensures Increasing(TailIndex(hit, idx))
  {
    var h := if hit then 1 else 0;
    var r := TailIndex(hit, idx);
    forall j, k | 0 <= j < k < |r|
      ensures r[j] < r[k]
    {
      assert idx[j + h] < idx[k + h];
    }
  }

  lemma CoversHitsTail<L, U>(f: L -> Option<U>, ls: seq<L>, idx: seq<nat>, hit: bool)
    requires |ls| > 0 && CoversHits(f, ls, idx)
    requires hit ==> |idx| > 0 && idx[0] == 0
    requires forall j :: (if hit then 1 else 0) <= j < |idx| ==> idx[j] > 0
    ensures CoversHits(f, ls[1..], TailIndex(hit, idx))
  {
    var h := if hit then 1 else 0;
    var r := TailIndex(hit, idx);
    forall i | 0 <= i < |ls[1..]| && f(ls[1..][i]).Some?
      ensures i in r
    {
      assert ls[1..][i] == ls[i + 1];
      var j :| 0 <= j < |idx| && idx[j] == i + 1;
      assert j >= h;
      assert r[j - h] == i;
    }
  }

  /** Peeling the first item off a filter-map: its result, if any, is the first element, and the rest filter-maps the remaining items. */
  lemma FilterMapUncons<L, U>(f: L -> Option<U>, ls: seq<L>, us: seq<U>)
    requires |ls| > 0
    requires IsFilterMap(f, ls, us)
    ensures f(ls[0]).Some? ==> |us| > 0 && us[0] == f(ls[0]).value && IsFilterMap(f, ls[1..], us[1..])
    ensures f(ls[0]).None? ==> IsFilterMap(f, ls[1..], us)
  {
    var idx :| FilterMapWitness(f, ls, us, idx);
    var hit := f(ls[0]).Some?;
    WitnessHead(f, ls, us, idx);
    PicksTail(f, ls, us, idx, hit);
    IncreasingTail(idx, hit);
    CoversHitsTail(f, ls, idx, hit);
    var h := if hit then 1 else 0;
    assert FilterMapWitness(f, ls[1..], us[h..], TailIndex(hit, idx));
    assert us[0..] == us;
  }

  /** A picked position lies within the items. */
  lemma PickedWithin<L, U>(f: L -> Option<U>, ls: seq<L>, us: seq<U>, idx: seq<nat>, j: nat)
    requires Picks(f, ls, us, idx) && j < |idx|
    ensures idx[j] < |ls|
  {
  }

  /** An empty list of items filter-maps only to the empty list. */
  lemma FilterMapOfNil<L, U>(f: L -> Option<U>, us: seq<U>)
    requires IsFilterMap(f, [], us)
    ensures us == []
  {
    var idx :| FilterMapWitness(f, [], us, idx);
    if |idx| > 0 {
      PickedWithin(f, [], us, idx, 0);
      assert false;
    }
  }

  /** The filter-map is unique: two lists that both filter-map `ls` through `f` are equal. */
  lemma {:induction false} FilterMapUnique<L, U>(f: L -> Option<U>, ls: seq<L>, us1: seq<U>, us2: seq<U>)
    requires IsFilterMap(f, ls, us1) && IsFilterMap(f, ls, us2)
    ensures us1 == us2
    decreases |ls|
  {
    if |ls| == 0 {
      assert ls == [];
      FilterMapOfNil(f, us1);
      FilterMapOfNil(f, us2);
    } else {
      FilterMapUncons(f, ls, us1);
      FilterMapUncons(f, ls, us2);
      if f(ls[0]).Some? {
        FilterMapUnique(f, ls[1..], us1[1..], us2[1..]);
        SameHeadAndTail(us1, us2);
      } else {
        FilterMapUnique(f, ls[1..], us1, us2);
      }
    }
  }

  /** `InjectedUnit` for a fixed file, as a function of the language. */
  function InjectedUnitOf(path: Path, docs: seq<Tree>, scan: (Tree, Path, Lang) -> PreScan): Lang -> Option<ScanUnit>
  {
    l => InjectedUnit(path, docs, scan, l)
  }

  /** The language of a unit's document. */
  function UnitLang(u: ScanUnit): Lang
  {
    u.grep.lang
  }

  /**
    `units` are exactly the kept units of the languages `langs`, in their
    order: every unit is the unit of its own language, and every language
    with a kept unit contributes it.
  */
  ghost predicate InjectedLayers(path: Path, docs: seq<Tree>, scan: (Tree, Path, Lang) -> PreScan, langs: seq<Lang>, units: seq<ScanUnit>)
  {
    && IsSubsequence(UnitLangs(units), langs)
    && SoundFor(InjectedUnitOf(path, docs, scan), UnitLang, langs, units)
    && CompleteFor(InjectedUnitOf(path, docs, scan), langs, units)
    && IsFilterMap(InjectedUnitOf(path, docs, scan), langs, units)
  }

  /** The order part of `InjectedLayersCons`. */
  lemma LayerOrderCons(langs: seq<Lang>, o: Option<ScanUnit>, rest: seq<ScanUnit>)
    requires |langs| > 0
    requires IsSubsequence(UnitLangs(rest), langs[1..])
    requires o.Some? ==> o.value.grep.lang == langs[0]
    ensures IsSubsequence(UnitLangs(OptionToSeq(o) + rest), langs)
  {
    assert [langs[0]] + langs[1..] == langs;
    SubsequenceSkip(langs[0], UnitLangs(rest), langs[1..]);
    if o.Some? {
      var r := [o.value] + rest;
      assert forall i :: 0 < i < |r| ==> r[i] == rest[i - 1];
      assert UnitLangs(r) == [langs[0]] + UnitLangs(rest);
      SubsequenceCons(langs[0], UnitLangs(rest), langs[1..]);
      assert OptionToSeq(o) + rest == r;
    } else {
      assert OptionToSeq(o) + rest == rest;
    }
  }

  /** One more language in front: its unit, when kept, goes in front of the units of the others. */
  lemma InjectedLayersCons(path: Path, docs: seq<Tree>, scan: (Tree, Path, Lang) -> PreScan, langs: seq<Lang>, rest: seq<ScanUnit>)
    requires |langs| > 0
    requires InjectedLayers(path, docs, scan, langs[1..], rest)
    ensures InjectedLayers(path, docs, scan, langs, OptionToSeq(InjectedUnit(path, docs, scan, langs[0])) + rest)
  {
    LayerOrderCons(langs, InjectedUnit(path, docs, scan, langs[0]), rest);
    SoundForCons(InjectedUnitOf(path, docs, scan), UnitLang, langs, rest);
    CompleteForCons(InjectedUnitOf(path, docs, scan), langs, rest);
    FilterMapCons(InjectedUnitOf(path, docs, scan), langs, rest);
  }

  /** Kept units are about `path` and hit something. */
  lemma InjectedLayersAreUnits(path: Path, docs: seq<Tree>, scan: (Tree, Path, Lang) -> PreScan, langs: seq<Lang>, units: seq<ScanUnit>)
    requires InjectedLayers(path, docs, scan, langs, units)
    ensures UnitsFor(path, units)
    ensures forall i :: 0 <= i < |units| ==> units[i].grep in docs
  {
  }

  /**
    The injected part of `filter_file_interactive`: for each injectable
    language in declared order, the first injected document of that language,
    kept when the rules for that language hit in it.
  */
  function InjectedUnits(path: Path, langs: seq<Lang>, docs: seq<Tree>, scan: (Tree, Path, Lang) -> PreScan): (r: seq<ScanUnit>)
    ensures |r| <= |langs|
    ensures InjectedLayers(path, docs, scan, langs, r)
  {
    if |langs| == 0 then
      FilterMapNil(InjectedUnitOf(path, docs, scan));
      []
    else
      var rest := InjectedUnits(path, langs[1..], docs, scan);
      InjectedLayersCons(path, docs, scan, langs, rest);
      OptionToSeq(InjectedUnit(path, docs, scan, langs[0])) + rest
  }

  /**
    `InjectedLayers` pins the injected units down completely: any list that
    meets it is the one `InjectedUnits` computes, so a language listed twice
    contributes its unit twice.
  */
  lemma InjectedLayersExact(path: Path, langs: seq<Lang>, docs: seq<Tree>, scan: (Tree, Path, Lang) -> PreScan, units: seq<ScanUnit>)
    requires InjectedLayers(path, docs, scan, langs, units)
    ensures units == InjectedUnits(path, langs, docs, scan)
  {
    FilterMapUnique(InjectedUnitOf(path, docs, scan), langs, units, InjectedUnits(path, langs, docs, scan));
  }

  /** A language listed twice contributes its unit twice. */
  lemma RepeatedLanguageTwice(path: Path, docs: seq<Tree>, scan: (Tree, Path, Lang) -> PreScan, l: Lang)
    requires InjectedUnit(path, docs, scan, l).Some?
    ensures InjectedUnits(path, [l, l], docs, scan)
         == [InjectedUnit(path, docs, scan, l).value, InjectedUnit(path, docs, scan, l).value]
  {
    var ls := [l, l];
    assert ls[1..] == [l];
    assert ls[1..][1..] == [];
  }

  /** The root part of `filter_file_interactive`: the root document's unit when its hit set is non-empty. */
  function RootUnits(path: Path, grep: Tree, lang: Lang, scan: (Tree, Path, Lang) -> PreScan): (r: seq<ScanUnit>)
    ensures UnitsFor(path, r)
    ensures r == [] <==> scan(grep, path, lang).hitSet == {}
    ensures r != [] ==> r == [ScanUnit(path, grep, scan(grep, path, lang))]
  {
    match Filter(grep, path, lang, scan)
    case None => []
    case Some(preScan) => [ScanUnit(path, grep, preScan)]
  }

  /** The injected part of `filter_file_interactive`, empty when the language declares no injectable languages. */
  function InjectedPart(path: Path, grep: Tree, lang: Lang, host: Host, scan: (Tree, Path, Lang) -> PreScan): (r: seq<ScanUnit>)
    ensures UnitsFor(path, r)
    ensures host.injectable(lang).None? ==> r == []
    ensures host.injectable(lang).Some? ==>
      && |r| <= |host.injectable(lang).value|
      && InjectedLayers(path, host.injections(grep), scan, host.injectable(lang).value, r)
  {
    match host.injectable(lang)
    case None => []
    case Some(langs) =>
      var r := InjectedUnits(path, langs, host.injections(grep), scan);
      InjectedLayersAreUnits(path, host.injections(grep), scan, langs, r);
      r
  }

  lemma UnitsForAppend(path: Path, a: seq<ScanUnit>, b: seq<ScanUnit>)
    requires UnitsFor(path, a) && UnitsFor(path, b)
    ensures UnitsFor(path, a + b)
  {
    assert forall i :: |a| <= i < |a + b| ==> (a + b)[i] == b[i - |a|];
  }

  /**
    `filter_file_interactive`: None when the file has no known language or is
    skipped on reading; otherwise the root document's unit first (only when
    its hit set is non-empty), then the units of the injected documents.
  */
  function FilterFileInteractive(path: Path, host: Host, scan: (Tree, Path, Lang) -> PreScan): (r: Option<seq<ScanUnit>>)
    ensures r.Some? <==> host.langOf(path).Some? && ReadFile(path, host).Some?
    ensures r.Some? ==>
      var lang := host.langOf(path).value;
      var root := Tree(lang, ReadFile(path, host).value);
      var k := if scan(root, path, lang).hitSet != {} then 1 else 0;
      && UnitsFor(path, r.value)
      && (scan(root, path, lang).hitSet != {} <==> |r.value| > 0 && r.value[0] == ScanUnit(path, root, scan(root, path, lang)))
      && k <= |r.value|
      && (host.injectable(lang).None? ==> |r.value| == k)
      && (host.injectable(lang).Some? ==>
            && |r.value| <= k + |host.injectable(lang).value|
            && InjectedLayers(path, host.injections(root), scan, host.injectable(lang).value, r.value[k..]))
  {
    match host.langOf(path)
    case None => None
    case Some(lang) =>
      match ReadFile(path, host)
      case None => None
      case Some(content) =>
        var grep := Tree(lang, content);
        var rootPart := RootUnits(path, grep, lang, scan);
        var injectedPart := InjectedPart(path, grep, lang, host, scan);
        UnitsForAppend(path, rootPart, injectedPart);
        assert (rootPart + injectedPart)[|rootPart|..] == injectedPart;
        Some(rootPart + injectedPart)
  }

  // ---------------------------------------------------------------------
  // Pattern-driven filtering
  // ---------------------------------------------------------------------

  /** A non-empty fixed string absent from the file text rules the file out without a structural search. */
  predicate RejectedByFixedString(content: string, fixed: string)
  {
    fixed != "" && !Contains(content, fixed)
  }

  /**
    `do_match` inside `filter_file_pattern`: after the fixed-string rejection
    against the whole file text, runs the structural search and yields a
    unit carrying the path and matcher when it finds a match.
  */
  function DoMatch<P>(content: string, path: Path, grep: Tree, matcher: P, lang: Lang,
                      fixedString: P -> string, find: (Tree, P) -> bool): (r: Option<(MatchUnit<P>, Lang)>)
    ensures r.Some? <==> !RejectedByFixedString(content, fixedString(matcher)) && find(grep, matcher)
    ensures r.Some? ==> r.value == (MatchUnit(path, grep, matcher), lang)
  {
    var fixed := fixedString(matcher);
    if fixed != "" && !Contains(content, fixed) then None
    else if find(grep, matcher) then Some((MatchUnit(path, grep, matcher), lang))
    else None
  }

  /** A rejected file yields nothing whatever the structural search would answer: the search is not consulted. */
  lemma RejectionSkipsSearch<P>(content: string, path: Path, grep: Tree, matcher: P, lang: Lang,
                                fixedString: P -> string, find1: (Tree, P) -> bool, find2: (Tree, P) -> bool)
    requires fixedString(matcher) != "" && forall i :: !OccursAt(content, fixedString(matcher), i)
    ensures DoMatch(content, path, grep, matcher, lang, fixedString, find1) == None
    ensures DoMatch(content, path, grep, matcher, lang, fixedString, find1)
         == DoMatch(content, path, grep, matcher, lang, fixedString, find2)
  {
    ContainsIffOccurs(content, fixedString(matcher));
  }

  /** An empty fixed string never rejects: the outcome is the structural search alone. */
  lemma EmptyFixedStringNeverRejects<P>(content: string, path: Path, grep: Tree, matcher: P, lang: Lang,
                                        fixedString: P -> string, find: (Tree, P) -> bool)
    requires fixedString(matcher) == ""
    ensures DoMatch(content, path, grep, matcher, lang, fixedString, find).Some? <==> find(grep, matcher)
  {
  }

  /** A fixed string that occurs in the file text never rejects either. */
  lemma PresentFixedStringNeverRejects<P>(content: string, path: Path, grep: Tree, matcher: P, lang: Lang,
                                          fixedString: P -> string, find: (Tree, P) -> bool, i: int)
    requires OccursAt(content, fixedString(matcher), i)
    ensures DoMatch(content, path, grep, matcher, lang, fixedString, find).Some? <==> find(grep, matcher)
  {
    ContainsIffOccurs(content, fixedString(matcher));
  }

  /** The optional result as a list of zero or one elements (`Vec::extend` with an `Option`). */
  function OptionToSeq<T>(o: Option<T>): (s: seq<T>)
    ensures o.Some? ==> s == [o.value]
    ensures o.None? ==> s == []
  {
    if o.Some? then [o.value] else []
  }

  /** The language tags of a list of units. */
  function PairLangs<P>(units: seq<(MatchUnit<P>, Lang)>): (langs: seq<Lang>)
    ensures |langs| == |units|
    ensures forall i :: 0 <= i < |units| ==> langs[i] == units[i].1
  {
    seq(|units|, i requires 0 <= i < |units| => units[i].1)
  }

  /**
    One turn of the injection loop of `filter_file_pattern`: the matcher is
    tried on the first injected document of its language, if there is one.
  */
  function InjectionMatch<P>(content: string, path: Path, injections: seq<Tree>, fixedString: P -> string,
                             find: (Tree, P) -> bool, lm: (Lang, P)): (r: Option<(MatchUnit<P>, Lang)>)
    ensures r.Some? <==>
      && FindDoc(injections, lm.0).Some?
      && DoMatch(content, path, FindDoc(injections, lm.0).value, lm.1, lm.0, fixedString, find).Some?
    ensures r.Some? ==> r.value == (MatchUnit(path, FindDoc(injections, lm.0).value, lm.1), lm.0)
    ensures r.Some? ==> r.value.0.grep in injections && r.value.0.grep.lang == lm.0
  {
    match FindDoc(injections, lm.0)
    case None => None
    case Some(doc) => DoMatch(content, path, doc, lm.1, lm.0, fixedString, find)
  }

  /** `InjectionMatch` for a fixed file, as a function of the (language, matcher) pair. */
  function InjectionMatchOf<P>(content: string, path: Path, injections: seq<Tree>, fixedString: P -> string,
                               find: (Tree, P) -> bool): ((Lang, P)) -> Option<(MatchUnit<P>, Lang)>
  {
    lm => InjectionMatch(content, path, injections, fixedString, find, lm)
  }

  /** The (language, matcher) pair a unit was produced for. */
  function MatchKey<P>(u: (MatchUnit<P>, Lang)): (Lang, P)
  {
    (u.1, u.0.matcher)
  }

  /**
    `units` are exactly the matches of the injected matchers, in their order:
    every unit is the match of a matcher it names, and every matcher that
    matches contributes its unit.
  */
  ghost predicate MatchLayers<P>(content: string, path: Path, injections: seq<Tree>, fixedString: P -> string,
                                 find: (Tree, P) -> bool, matchers: seq<(Lang, P)>, units: seq<(MatchUnit<P>, Lang)>)
  {
    && IsSubsequence(PairLangs(units), Firsts(matchers))
    && SoundFor(InjectionMatchOf(content, path, injections, fixedString, find), MatchKey, matchers, units)
    && CompleteFor(InjectionMatchOf(content, path, injections, fixedString, find), matchers, units)
    && IsFilterMap(InjectionMatchOf(content, path, injections, fixedString, find), matchers, units)
  }

  /** The order part of `MatchLayersCons`. */
  lemma MatchOrderCons<P>(matchers: seq<(Lang, P)>, o: Option<(MatchUnit<P>, Lang)>, rest: seq<(MatchUnit<P>, Lang)>)
    requires |matchers| > 0
    requires IsSubsequence(PairLangs(rest), Firsts(matchers[1..]))
    requires o.Some? ==> o.value.1 == matchers[0].0
    ensures IsSubsequence(PairLangs(OptionToSeq(o) + rest), Firsts(matchers))
  {
    assert Firsts(matchers) == [matchers[0].0] + Firsts(matchers[1..]);
    SubsequenceSkip(matchers[0].0, PairLangs(rest), Firsts(matchers[1..]));
    if o.Some? {
      var r := [o.value] + rest;
      assert forall i :: 0 < i < |r| ==> r[i] == rest[i - 1];
      assert PairLangs(r) == [matchers[0].0] + PairLangs(rest);
      SubsequenceCons(matchers[0].0, PairLangs(rest), Firsts(matchers[1..]));
      assert OptionToSeq(o) + rest == r;
    } else {
      assert OptionToSeq(o) + rest == rest;
    }
  }

  /** One more matcher in front: its unit, when it matches, goes in front of the units of the others. */
  lemma MatchLayersCons<P>(content: string, path: Path, injections: seq<Tree>, fixedString: P -> string,
                           find: (Tree, P) -> bool, matchers: seq<(Lang, P)>, rest: seq<(MatchUnit<P>, Lang)>)
    requires |matchers| > 0
    requires MatchLayers(content, path, injections, fixedString, find, matchers[1..], rest)
    ensures MatchLayers(content, path, injections, fixedString, find, matchers,
                        OptionToSeq(InjectionMatch(content, path, injections, fixedString, find, matchers[0])) + rest)
  {
    MatchOrderCons(matchers, InjectionMatch(content, path, injections, fixedString, find, matchers[0]), rest);
    SoundForCons(InjectionMatchOf(content, path, injections, fixedString, find), MatchKey, matchers, rest);
    CompleteForCons(InjectionMatchOf(content, path, injections, fixedString, find), matchers, rest);
    FilterMapCons(InjectionMatchOf(content, path, injections, fixedString, find), matchers, rest);
  }

  /**
    The injection loop of `filter_file_pattern`: each (language, matcher) in
    turn is tried on the first injected document of that language; matchers
    whose language has no injected document are skipped.
  */
  function MatchInjections<P>(content: string, path: Path, matchers: seq<(Lang, P)>, injections: seq<Tree>,
                              fixedString: P -> string, find: (Tree, P) -> bool): (r: seq<(MatchUnit<P>, Lang)>)
    ensures |r| <= |matchers|
    ensures MatchLayers(content, path, injections, fixedString, find, matchers, r)
  {
    if |matchers| == 0 then
      FilterMapNil(InjectionMatchOf(content, path, injections, fixedString, find));
      []
    else
      var rest := MatchInjections(content, path, matchers[1..], injections, fixedString, find);
      MatchLayersCons(content, path, injections, fixedString, find, matchers, rest);
      OptionToSeq(InjectionMatch(content, path, injections, fixedString, find, matchers[0])) + rest
  }

  /**
    `MatchLayers` pins the injected matches down completely: any list that
    meets it is the one `MatchInjections` computes, so two matchers of one
    language that both match contribute their units in matcher order.
  */
  lemma MatchLayersExact<P>(content: string, path: Path, matchers: seq<(Lang, P)>, injections: seq<Tree>,
                            fixedString: P -> string, find: (Tree, P) -> bool, units: seq<(MatchUnit<P>, Lang)>)
    requires MatchLayers(content, path, injections, fixedString, find, matchers, units)
    ensures units == MatchInjections(content, path, matchers, injections, fixedString, find)
  {
    FilterMapUnique(InjectionMatchOf(content, path, injections, fixedString, find), matchers, units,
                    MatchInjections(content, path, matchers, injections, fixedString, find));
  }

  /** Two matchers of one language that both match yield both units, in matcher order. */
  lemma SameLanguageMatchersInOrder<P>(content: string, path: Path, injections: seq<Tree>, fixedString: P -> string,
                                       find: (Tree, P) -> bool, l: Lang, p1: P, p2: P)
    requires InjectionMatch(content, path, injections, fixedString, find, (l, p1)).Some?
    requires InjectionMatch(content, path, injections, fixedString, find, (l, p2)).Some?
    ensures MatchInjections(content, path, [(l, p1), (l, p2)], injections, fixedString, find)
         == [InjectionMatch(content, path, injections, fixedString, find, (l, p1)).value,
             InjectionMatch(content, path, injections, fixedString, find, (l, p2)).value]
  {
    var ms := [(l, p1), (l, p2)];
    assert ms[1..] == [(l, p2)];
    assert ms[1..][1..] == [];
  }

  /** Matched injected units are about `path`, on an injected document in the language they are paired with. */
  lemma MatchLayersAreUnits<P>(content: string, path: Path, injections: seq<Tree>, fixedString: P -> string,
                               find: (Tree, P) -> bool, matchers: seq<(Lang, P)>, units: seq<(MatchUnit<P>, Lang)>)
    requires MatchLayers(content, path, injections, fixedString, find, matchers, units)
    ensures forall i :: 0 <= i < |units| ==>
      units[i].0.path == path && units[i].0.grep in injections && units[i].0.grep.lang == units[i].1
  {
  }

  /** The root layer of `filter_file_pattern`: the root matcher, when given, tried on the whole file. */
  function RootMatch<P>(content: string, path: Path, lang: Lang, rootMatcher: Option<P>,
                        fixedString: P -> string, find: (Tree, P) -> bool): (r: Option<(MatchUnit<P>, Lang)>)
    ensures r.Some? <==> rootMatcher.Some? && DoMatch(content, path, Tree(lang, content), rootMatcher.value, lang, fixedString, find).Some?
    ensures r.Some? ==> r.value == (MatchUnit(path, Tree(lang, content), rootMatcher.value), lang)
  {
    if rootMatcher.Some? then DoMatch(content, path, Tree(lang, content), rootMatcher.value, lang, fixedString, find) else None
  }

  /** The layout of the pattern result: the optional root unit, then the injected units. */
  lemma RootThenInjected<P>(root: Option<(MatchUnit<P>, Lang)>, rest: seq<(MatchUnit<P>, Lang)>, path: Path, injections: seq<Tree>)
    requires root.Some? ==> root.value.0.path == path
    requires forall i :: 0 <= i < |rest| ==> rest[i].0.path == path && rest[i].0.grep in injections
    ensures var r := OptionToSeq(root) + rest;
      var k := if root.Some? then 1 else 0;
      && |r| == k + |rest|
      && (root.Some? ==> r[0] == root.value)
      && r[k..] == rest
      && (forall i :: 0 <= i < |r| ==> r[i].0.path == path)
      && (root.None? ==> forall i :: 0 <= i < |r| ==> r[i].0.grep in injections)
  {
    var r := OptionToSeq(root) + rest;
    var k := |OptionToSeq(root)|;
    assert forall i :: k <= i < |r| ==> r[i] == rest[i - k];
    assert r[k..] == rest;
  }

  /**
    The units `filter_file_pattern` collects for a file it has read: the root
    layer's match first, when there is one, then the matches of the injected
    layers.
  */
  function PatternUnits<P>(content: string, path: Path, lang: Lang, rootMatcher: Option<P>, matchers: seq<(Lang, P)>,
                           injections: seq<Tree>, fixedString: P -> string, find: (Tree, P) -> bool): (r: seq<(MatchUnit<P>, Lang)>)
    ensures
      var root := RootMatch(content, path, lang, rootMatcher, fixedString, find);
      var k := if root.Some? then 1 else 0;
      && k <= |r| <= k + |matchers|
      && (root.Some? ==> r[0] == root.value)
      && MatchLayers(content, path, injections, fixedString, find, matchers, r[k..])
      && (forall i :: 0 <= i < |r| ==> r[i].0.path == path)
      && (root.None? ==> forall i :: 0 <= i < |r| ==> r[i].0.grep in injections)
  {
    var rootPart := OptionToSeq(RootMatch(content, path, lang, rootMatcher, fixedString, find));
    var injectedPart := MatchInjections(content, path, matchers, injections, fixedString, find);
    MatchLayersAreUnits(content, path, injections, fixedString, find, matchers, injectedPart);
    RootThenInjected(RootMatch(content, path, lang, rootMatcher, fixedString, find), injectedPart, path, injections);
    rootPart + injectedPart
  }

  /**
    `filter_file_pattern`: None when the file is skipped on reading;
    otherwise the root layer's unit (when a root matcher is given and
    matches) followed by the units of the injected layers that match.
  */
  function FilterFilePattern<P>(path: Path, lang: Lang, rootMatcher: Option<P>, matchers: seq<(Lang, P)>, host: Host,
                                fixedString: P -> string, find: (Tree, P) -> bool): (r: Option<seq<(MatchUnit<P>, Lang)>>)
    ensures r.Some? <==> ReadFile(path, host).Some?
    ensures r.Some? ==>
      var content := ReadFile(path, host).value;
      var grep := Tree(lang, content);
      var rootHit := if rootMatcher.Some? then DoMatch(content, path, grep, rootMatcher.value, lang, fixedString, find) else None;
      var k := if rootHit.Some? then 1 else 0;
      && |r.value| <= k + |matchers|
      && (forall i :: 0 <= i < |r.value| ==> r.value[i].0.path == path)
      && k <= |r.value|
      && (rootHit.Some? ==> r.value[0] == rootHit.value)
      && MatchLayers(content, path, host.injections(grep), fixedString, find, matchers, r.value[k..])
      && (rootMatcher.None? ==> forall i :: 0 <= i < |r.value| ==> r.value[i].0.grep in host.injections(grep))
  {
    match ReadFile(path, host)
    case None => None
    case Some(content) =>
      Some(PatternUnits(content, path, lang, rootMatcher, matchers, host.injections(Tree(lang, content)), fixedString, find))
  }

  /** With distinct injectable languages, the interactive filter yields at most one unit per injected language. */
  lemma InjectedUnitsOnePerLang(path: Path, langs: seq<Lang>, docs: seq<Tree>, scan: (Tree, Path, Lang) -> PreScan)
    requires Distinct(langs)
    ensures var r := InjectedUnits(path, langs, docs, scan);
      Distinct(UnitLangs(r)) && forall i :: 0 <= i < |r| ==> r[i].grep.lang in langs
  {
    DistinctUnitLangs(langs, InjectedUnits(path, langs, docs, scan));
  }

  /** Units whose languages follow a duplicate-free list in order have distinct languages drawn from it. */
  lemma DistinctUnitLangs(langs: seq<Lang>, r: seq<ScanUnit>)
    requires Distinct(langs) && IsSubsequence(UnitLangs(r), langs)
    ensures Distinct(UnitLangs(r)) && forall i :: 0 <= i < |r| ==> r[i].grep.lang in langs
  {
    SubsequenceDistinct(UnitLangs(r), langs);
    assert forall i :: 0 <= i < |r| ==> UnitLang(r[i]) == r[i].grep.lang;
  }
}
