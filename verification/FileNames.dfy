/** Names of rotated log files: splitting off the extension and putting the index before it. */
module FileNames {
  import opened Powers
  import opened DigitText

  type Name = seq<char>

  /** The folder separator of the systems modelled here. */
  const SEPARATOR: char := '/'

  /** Where c occurs last in s, -1 when it does not. */
  function RFind(s: Name, c: char): (k: int)
    ensures -1 <= k < |s|
    ensures k >= 0 ==> s[k] == c
    ensures forall i :: k < i < |s| ==> s[i] != c
  {
    if s == [] then -1
    else if s[|s| - 1] == c then |s| - 1
    else RFind(s[..|s| - 1], c)
  }

  lemma RFindIs(s: Name, c: char, k: int)
    requires -1 <= k < |s|
    requires k >= 0 ==> s[k] == c
    requires forall i :: k < i < |s| ==> s[i] != c
    ensures RFind(s, c) == k
  {
    assert RFind(s, c) <= k;
  }

  /** split_by_extension: stem and extension, the extension with its dot or empty. */
  function SplitByExtension(fname: Name): (r: (Name, Name))
    ensures r.0 + r.1 == fname
  {
    var extIndex := RFind(fname, '.');
    if extIndex == -1 || extIndex == 0 || extIndex == |fname| - 1 then (fname, [])
    else
      var folderIndex := RFind(fname, SEPARATOR);
      if folderIndex != -1 && folderIndex >= extIndex - 1 then (fname, [])
      else (fname[..extIndex], fname[extIndex..])
  }

  /** The documented rule, on a name without folders: the last dot counts unless it opens or ends the name. */
  ghost predicate IsSplit(component: Name, stem: Name, ext: Name) {
    && stem + ext == component
    && (ext != [] ==> stem != [] && |ext| > 1 && ext[0] == '.' && '.' !in ext[1..])
    && (ext == [] ==> forall k :: 0 < k < |component| - 1 && component[k] == '.' ==> '.' in component[k + 1..])
  }

  lemma FolderLast(folder: Name, component: Name)
    requires folder == [] || folder[|folder| - 1] == SEPARATOR
    requires SEPARATOR !in component
    ensures RFind(folder + component, SEPARATOR) == |folder| - 1
  {
    var whole := folder + component;
    forall i | |folder| - 1 < i < |whole| ensures whole[i] != SEPARATOR {
      assert whole[i] == component[i - |folder|];
    }
    RFindIs(whole, SEPARATOR, |folder| - 1);
  }

  lemma DotInFolder(folder: Name, component: Name)
    ensures RFind(component, '.') >= 0 ==> RFind(folder + component, '.') == |folder| + RFind(component, '.')
    ensures RFind(component, '.') == -1 ==> RFind(folder + component, '.') < |folder|
  {
    var whole := folder + component;
    var k := RFind(component, '.');
    if k >= 0 {
      assert whole[|folder| + k] == '.';
      forall i | |folder| + k < i < |whole| ensures whole[i] != '.' {
        assert whole[i] == component[i - |folder|];
      }
      RFindIs(whole, '.', |folder| + k);
    } else {
      assert forall i :: |folder| <= i < |whole| ==> whole[i] == component[i - |folder|];
    }
  }

  /**
   * Whatever dots the folders have, the extension is that of the last component by the documented
   * rule: hidden files and a trailing dot have none.
   */
  lemma SplitOfComponent(folder: Name, component: Name)
    requires folder == [] || folder[|folder| - 1] == SEPARATOR
    requires SEPARATOR !in component
    ensures var (stem, ext) := SplitByExtension(folder + component);
            |stem| >= |folder| && stem[..|folder|] == folder && IsSplit(component, stem[|folder|..], ext)
  {
    SplitPosition(folder, component);
    var k := RFind(component, '.');
    hide RFind, SplitByExtension;
    if 0 < k < |component| - 1 {
      SplitInside(component, k);
      assert (folder + component[..k])[|folder|..] == component[..k];
    } else {
      NoExtension(component, k);
      assert (folder + component)[|folder|..] == component;
    }
  }

  lemma SplitPosition(folder: Name, component: Name)
    requires folder == [] || folder[|folder| - 1] == SEPARATOR
    requires SEPARATOR !in component
    ensures var k := RFind(component, '.');
            SplitByExtension(folder + component)
            == if 0 < k < |component| - 1 then (folder + component[..k], component[k..]) else (folder + component, [])
  {
    FolderLast(folder, component);
    DotInFolder(folder, component);
    var whole := folder + component;
    var k := RFind(component, '.');
    hide RFind;
    if k >= 0 {
      SliceAfter(folder, component, k);
    }
  }

  lemma SliceAfter(folder: Name, component: Name, k: nat)
    requires k <= |component|
    ensures (folder + component)[..|folder| + k] == folder + component[..k]
    ensures (folder + component)[|folder| + k..] == component[k..]
  {
  }

  lemma SplitInside(component: Name, k: int)
    requires k == RFind(component, '.') && 0 < k < |component| - 1
    ensures IsSplit(component, component[..k], component[k..])
  {
    assert component[k..][1..] == component[k + 1..];
    assert component[..k] + component[k..] == component;
  }

  lemma NoExtension(component: Name, k: int)
    requires k == RFind(component, '.') && !(0 < k < |component| - 1)
    ensures IsSplit(component, component, [])
  {
    forall j | 0 < j < |component| - 1 && component[j] == '.' ensures '.' in component[j + 1..] {
      assert component[j + 1..][k - (j + 1)] == '.';
    }
  }

  lemma {:induction false} IsSplitUnique(component: Name, stem: Name, ext: Name, stem': Name, ext': Name)
    requires IsSplit(component, stem, ext) && IsSplit(component, stem', ext')
    ensures stem == stem' && ext == ext'
  {
    if |stem| < |stem'| {
      NotShorter(component, stem, ext, stem', ext');
    } else if |stem'| < |stem| {
      NotShorter(component, stem', ext', stem, ext);
    } else {
      assert stem == component[..|stem|] == stem';
      assert ext == component[|stem|..] == ext';
    }
  }

  lemma DotAfter(stem: Name, ext: Name, k: nat)
    requires |stem| < k < |stem + ext| && (stem + ext)[k] == '.'
    ensures '.' in ext[1..]
  {
    assert ext[1..][k - |stem| - 1] == '.';
  }

  lemma DotAfterAll(stem: Name, ext: Name)
    requires stem != [] && |ext| > 1 && ext[0] == '.'
    requires forall k :: 0 < k < |stem + ext| - 1 && (stem + ext)[k] == '.' ==> '.' in (stem + ext)[k + 1..]
    ensures '.' in ext[1..]
  {
    assert (stem + ext)[|stem|] == '.';
    assert (stem + ext)[|stem| + 1..] == ext[1..];
  }

  /** No second split of the same name can come later. */
  lemma NotShorter(component: Name, stem: Name, ext: Name, stem': Name, ext': Name)
    requires IsSplit(component, stem, ext) && IsSplit(component, stem', ext')
    ensures |stem| >= |stem'|
  {
    if |stem| < |stem'| && ext' != [] {
      DotAfter(stem, ext, |stem'|);
    } else if |stem| < |stem'| {
      DotAfterAll(stem, ext);
    }
  }

  /** The decimal text of an index, as "{}" formats it. */
  function Numeral(n: nat): (s: seq<char>)
    ensures |s| >= 1
  {
    if n < 10 then [DigitChar(n)] else Numeral(n / 10) + [DigitChar(n % 10)]
  }

  lemma {:induction false} NumeralDenotes(n: nat)
    ensures Denotes(Numeral(n), n)
  {
    if n < 10 {
      assert Number([]) == 0;
      NumberAppend([], DigitChar(n));
      assert [] + [DigitChar(n)] == Numeral(n);
      assert Pow(10, 1) == 10 * Pow(10, 0);
    } else {
      var front := Numeral(n / 10);
      NumeralDenotes(n / 10);
      NumberAppend(front, DigitChar(n % 10));
      var k := |front|;
      assert Pow(10, k + 1) == 10 * Pow(10, k);
      assert Pow(10, k) == 10 * Pow(10, k - 1);
    }
  }

  lemma NumeralInjective(m: nat, n: nat)
    requires Numeral(m) == Numeral(n)
    ensures m == n
  {
    NumeralDenotes(m);
    NumeralDenotes(n);
  }

  /** calc_filename: the base name for index 0, the index between stem and extension otherwise. */
  function CalcFilename(filename: Name, index: nat): Name {
    if index == 0 then filename
    else
      var (basename, ext) := SplitByExtension(filename);
      basename + ['.'] + Numeral(index) + ext
  }

  /** Different indices never share a file. */
  lemma CalcFilenameInjective(filename: Name, i: nat, j: nat)
    requires CalcFilename(filename, i) == CalcFilename(filename, j)
    ensures i == j
  {
    var (b, e) := SplitByExtension(filename);
    assert |filename| == |b| + |e|;
    if i > 0 && j > 0 {
      var x, y := Numeral(i), Numeral(j);
      var whole := CalcFilename(filename, i);
      assert |x| == |y|;
      assert x == whole[|b| + 1..|b| + 1 + |x|];
      assert y == whole[|b| + 1..|b| + 1 + |x|];
      NumeralInjective(i, j);
    }
  }

  /** Index 0 is the name itself; any other index goes between the stem and the extension of the last component. */
  lemma CalcFilenameIs(folder: Name, component: Name, stem: Name, ext: Name, index: nat)
    requires folder == [] || folder[|folder| - 1] == SEPARATOR
    requires SEPARATOR !in component && IsSplit(component, stem, ext)
    ensures CalcFilename(folder + component, index)
         == if index == 0 then folder + component else folder + (stem + ['.'] + Numeral(index) + ext)
  {
    SplitHere(folder, component, stem, ext);
    hide SplitByExtension, IsSplit, Numeral;
    Joined(folder, stem, Numeral(index), ext);
  }

  lemma SplitHere(folder: Name, component: Name, stem: Name, ext: Name)
    requires folder == [] || folder[|folder| - 1] == SEPARATOR
    requires SEPARATOR !in component && IsSplit(component, stem, ext)
    ensures SplitByExtension(folder + component) == (folder + stem, ext)
  {
    hide SplitByExtension, IsSplit;
    SplitOfComponent(folder, component);
    var (basename, ext') := SplitByExtension(folder + component);
    IsSplitUnique(component, stem, ext, basename[|folder|..], ext');
    assert basename == folder + basename[|folder|..];
  }

  lemma Joined(folder: Name, stem: Name, number: Name, ext: Name)
    ensures folder + stem + ['.'] + number + ext == folder + (stem + ['.'] + number + ext)
  {
  }

  /** Without a dot in the last component, the index comes last. */
  lemma CalcFilenameBare(folder: Name, component: Name, index: nat)
    requires folder == [] || folder[|folder| - 1] == SEPARATOR
    requires SEPARATOR !in component && '.' !in component && index > 0
    ensures CalcFilename(folder + component, index) == folder + component + ['.'] + Numeral(index)
  {
    assert component + [] == component;
    CalcFilenameIs(folder, component, component, [], index);
    hide CalcFilename, Numeral;
    assert component + ['.'] + Numeral(index) + [] == component + ['.'] + Numeral(index);
    assert folder + (component + ['.'] + Numeral(index)) == folder + component + ['.'] + Numeral(index);
  }

  /** A rotated name splits into the stem with the index and the extension of the base name. */
  lemma CalcFilenameSplits(folder: Name, component: Name, index: nat)
    requires folder == [] || folder[|folder| - 1] == SEPARATOR
    requires SEPARATOR !in component
    requires index > 0 && SplitByExtension(folder + component).1 != []
    ensures var (stem, ext) := SplitByExtension(folder + component);
            SplitByExtension(CalcFilename(folder + component, index)) == (stem + ['.'] + Numeral(index), ext)
  {
    hide SplitByExtension, Numeral;
    var (stem, ext) := SplitByExtension(folder + component);
    SplitOfComponent(folder, component);
    var front := stem[|folder|..];
    var middle := ['.'] + Numeral(index);
    assert component == front + ext;
    NoSeparator(front, ext, index);
    SplitStem(folder, front + middle, ext);
    Reassociate(folder, front, Numeral(index), ext);
    assert stem == folder + front;
  }

  lemma Reassociate(folder: Name, front: Name, number: Name, ext: Name)
    ensures folder + front + ['.'] + number == folder + (front + (['.'] + number))
    ensures folder + front + ['.'] + number + ext == folder + (front + (['.'] + number) + ext)
  {
  }

  /** A name put together from a folder, a stem and an extension splits there. */
  lemma SplitStem(folder: Name, front: Name, ext: Name)
    requires folder == [] || folder[|folder| - 1] == SEPARATOR
    requires SEPARATOR !in front + ext
    requires front != [] && |ext| > 1 && ext[0] == '.' && '.' !in ext[1..]
    ensures SplitByExtension(folder + (front + ext)) == (folder + front, ext)
  {
    SplitOfComponent(folder, front + ext);
    var (stem, ext') := SplitByExtension(folder + (front + ext));
    hide SplitByExtension;
    IsSplitUnique(front + ext, front, ext, stem[|folder|..], ext');
    assert stem == folder + stem[|folder|..];
  }

  lemma NoSeparator(front: Name, ext: Name, index: nat)
    requires SEPARATOR !in front + ext
    ensures SEPARATOR !in front + (['.'] + Numeral(index)) + ext
  {
    NumeralDenotes(index);
    assert forall c :: c in front ==> c in front + ext;
    assert forall c :: c in ext ==> c in front + ext;
    assert forall c :: c in Numeral(index) ==> IsDigit(c);
  }
}
