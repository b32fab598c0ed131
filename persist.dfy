/** Saving the collected actions (`save_actions`, scrape.py:113-144): one
    file per action, named after a slug of its title, then `index.json`
    with the number of actions and their titles. The output directory is a
    map from file name to the record written there; files already in it
    stay unless overwritten. */
module Persist {
  import opened Text
  import opened Seqs

  // ---------------------------------------------------------------------
  // The file-name slug
  // ---------------------------------------------------------------------

  predicate IsHyphen(c: char) { c == '-' }

  /** The characters the first substitution keeps: `[\w\s-]`. */
  predicate IsSafe(c: char) { IsWord(c) || IsSpace(c) || c == '-' }

  /** The characters whose runs the second substitution collapses: `[-\s]`. */
  predicate IsSeparator(c: char) { c == '-' || IsSpace(c) }

  /** Deleting every character outside `[\w\s-]`. */
  function RemoveUnsafe(s: string): (r: string)
    decreases |s|
    ensures |r| <= |s|
    ensures forall k :: 0 <= k < |r| ==> IsSafe(r[k]) && r[k] in s
    ensures (forall k :: 0 <= k < |s| ==> IsSafe(s[k])) ==> r == s
  {
    if s == [] then []
    else (if IsSafe(s[0]) then [s[0]] else []) + RemoveUnsafe(s[1..])
  }

  /** Two hyphens side by side somewhere in `s`. */
  predicate HasDoubleHyphen(s: string) {
    exists k :: 0 <= k < |s| - 1 && s[k] == '-' && s[k + 1] == '-'
  }

  /** Replacing every run of `[-\s]` by one hyphen, scanning with a flag
      that says whether the previous character was part of such a run. */
  function CollapseFrom(s: string, inRun: bool): (r: string)
    decreases |s|
    ensures forall k :: 0 <= k < |r| ==> r[k] == '-' || (!IsSeparator(r[k]) && r[k] in s)
    ensures !HasDoubleHyphen(r)
    ensures inRun && r != [] ==> r[0] != '-'
  {
    if s == [] then []
    else if IsSeparator(s[0]) then
      (if inRun then [] else ['-']) + CollapseFrom(s[1..], true)
    else [s[0]] + CollapseFrom(s[1..], false)
  }

  function Collapse(s: string): string {
    CollapseFrom(s, false)
  }

  /** The file-name stem of a title: unsafe characters deleted, separator
      runs collapsed to one hyphen, hyphens stripped from both ends, lower
      case. */
  function Slug(title: string): string {
    LowerAll(StripBy(Collapse(RemoveUnsafe(title)), IsHyphen))
  }

  predicate IsSlugChar(c: char) {
    IsLower(c) || IsDigit(c) || c == '_' || c == '-'
  }

  /** The shape of a slug: lower-case word characters and single hyphens,
      with no hyphen at either end. */
  predicate IsSlug(s: string) {
    && (forall k :: 0 <= k < |s| ==> IsSlugChar(s[k]))
    && !HasDoubleHyphen(s)
    && (s != [] ==> s[0] != '-' && s[|s| - 1] != '-')
  }

  /** The text before lower-casing: hyphens and word characters only, no
      doubled hyphen and no hyphen at either end. */
  predicate IsUnloweredSlug(t: string) {
    && (forall k :: 0 <= k < |t| ==> t[k] == '-' || IsWord(t[k]))
    && !HasDoubleHyphen(t)
    && (t != [] ==> t[0] != '-' && t[|t| - 1] != '-')
  }

  /** The collapsed safe text holds only hyphens and word characters, and
      no doubled hyphen. */
  lemma CollapsedShape(title: string)
    ensures var c := Collapse(RemoveUnsafe(title));
            && (forall k :: 0 <= k < |c| ==> c[k] == '-' || IsWord(c[k]))
            && !HasDoubleHyphen(c)
  {
    var safe := RemoveUnsafe(title);
    var c := Collapse(safe);
    forall k | 0 <= k < |c|
      ensures c[k] == '-' || IsWord(c[k])
    {
      if c[k] != '-' {
        var m :| 0 <= m < |safe| && safe[m] == c[k];
      }
    }
  }

  /** A piece of such text without a hyphen at either end is a slug up to
      case. */
  lemma PieceShape(c: string, t: string, i: nat, j: nat)
    requires i <= j <= |c| && t == c[i..j]
    requires forall k :: 0 <= k < |c| ==> c[k] == '-' || IsWord(c[k])
    requires !HasDoubleHyphen(c)
    requires t != [] ==> t[0] != '-' && t[|t| - 1] != '-'
    ensures IsUnloweredSlug(t)
  {
    forall k | 0 <= k < |t|
      ensures t[k] == '-' || IsWord(t[k])
    {
      assert t[k] == c[i + k];
    }
    forall k | 0 <= k < |t| - 1
      ensures !(t[k] == '-' && t[k + 1] == '-')
    {
      assert t[k] == c[i + k] && t[k + 1] == c[i + k + 1];
    }
  }

  /** Stripping the hyphens off the collapsed safe text leaves a slug up to
      case. */
  lemma StrippedShape(title: string)
    ensures IsUnloweredSlug(StripBy(Collapse(RemoveUnsafe(title)), IsHyphen))
  {
    var c := Collapse(RemoveUnsafe(title));
    var t := StripBy(c, IsHyphen);
    CollapsedShape(title);
    StripBySlice(c, IsHyphen);
    var i, j :| CutFrom(c, t, IsHyphen, i, j);
    PieceShape(c, t, i, j);
  }

  /** Lower-casing keeps hyphens where they are and turns word characters
      into slug characters. */
  lemma LoweredShape(t: string)
    requires IsUnloweredSlug(t)
    ensures IsSlug(LowerAll(t))
  {
    var r := LowerAll(t);
    forall k | 0 <= k < |r|
      ensures IsSlugChar(r[k]) && (r[k] == '-' <==> t[k] == '-')
    {
    }
    assert !HasDoubleHyphen(r) by {
      forall k | 0 <= k < |r| - 1
        ensures !(r[k] == '-' && r[k + 1] == '-')
      {
        assert !(t[k] == '-' && t[k + 1] == '-');
      }
    }
  }

  /** Every slug has the slug shape. */
  lemma SlugShape(title: string)
    ensures IsSlug(Slug(title))
  {
    StrippedShape(title);
    LoweredShape(StripBy(Collapse(RemoveUnsafe(title)), IsHyphen));
  }

  /** `CollapseFrom` leaves alone text without whitespace or doubled
      hyphens, unless it would have to drop a leading hyphen. */
  lemma {:induction false} CollapseKeeps(s: string, inRun: bool)
    requires forall k :: 0 <= k < |s| ==> !IsSpace(s[k])
    requires !HasDoubleHyphen(s)
    requires inRun && s != [] ==> s[0] != '-'
    ensures CollapseFrom(s, inRun) == s
    decreases |s|
  {
    if s != [] {
      var rest := s[1..];
      assert !HasDoubleHyphen(rest) by {
        forall k | 0 <= k < |rest| - 1
          ensures !(rest[k] == '-' && rest[k + 1] == '-')
        {
          assert rest[k] == s[k + 1] && rest[k + 1] == s[k + 2];
        }
      }
      if |s| > 1 {
        assert s[0] == '-' ==> rest[0] != '-';
      }
      CollapseKeeps(rest, s[0] == '-');
    }
  }

  /** The filter works one character at a time. */
  lemma {:induction false} RemoveUnsafeAppend(a: string, b: string)
    ensures RemoveUnsafe(a + b) == RemoveUnsafe(a) + RemoveUnsafe(b)
    decreases |a|
  {
    if a == [] {
      assert a + b == b;
    } else {
      assert (a + b)[0] == a[0];
      assert (a + b)[1..] == a[1..] + b;
      RemoveUnsafeAppend(a[1..], b);
    }
  }

  /** A run of non-separators passes through the collapse unchanged and
      ends any separator run. */
  lemma {:induction false} CollapseWord(w: string, rest: string, inRun: bool)
    requires forall k :: 0 <= k < |w| ==> !IsSeparator(w[k])
    ensures CollapseFrom(w + rest, inRun) == w + CollapseFrom(rest, if w == [] then inRun else false)
    decreases |w|
  {
    if w == [] {
      assert w + rest == rest;
    } else {
      assert (w + rest)[0] == w[0];
      assert (w + rest)[1..] == w[1..] + rest;
      CollapseWord(w[1..], rest, false);
    }
  }

  /** A run of `[-\s]` characters becomes a single hyphen, or nothing when
      it continues a run already replaced; the scan then carries on inside
      a run. */
  lemma {:induction false} CollapseRun(run: string, rest: string, inRun: bool)
    requires run != [] && forall k :: 0 <= k < |run| ==> IsSeparator(run[k])
    ensures CollapseFrom(run + rest, inRun) == (if inRun then "" else "-") + CollapseFrom(rest, true)
    decreases |run|
  {
    assert (run + rest)[0] == run[0];
    assert (run + rest)[1..] == run[1..] + rest;
    if |run| == 1 {
      assert run[1..] + rest == rest;
    } else {
      CollapseRun(run[1..], rest, true);
    }
  }

  /** The characters of `s` outside `[-\s]`, in order. */
  function NonSeparators(s: string): string
    decreases |s|
  {
    if s == [] then []
    else (if IsSeparator(s[0]) then [] else [s[0]]) + NonSeparators(s[1..])
  }

  lemma {:induction false} NonSeparatorsAppend(a: string, b: string)
    ensures NonSeparators(a + b) == NonSeparators(a) + NonSeparators(b)
    decreases |a|
  {
    if a == [] {
      assert a + b == b;
    } else {
      assert (a + b)[0] == a[0];
      assert (a + b)[1..] == a[1..] + b;
      NonSeparatorsAppend(a[1..], b);
      AppendAssoc(if IsSeparator(a[0]) then [] else [a[0]], NonSeparators(a[1..]), NonSeparators(b));
    }
  }

  /** The collapse touches only the separators: every other character of
      the input is kept, in order. */
  lemma {:induction false} CollapseKeepsNonSeparators(s: string, inRun: bool)
    ensures NonSeparators(CollapseFrom(s, inRun)) == NonSeparators(s)
    decreases |s|
  {
    if s != [] {
      var rest := CollapseFrom(s[1..], IsSeparator(s[0]));
      var head: string := if IsSeparator(s[0]) then (if inRun then [] else ['-']) else [s[0]];
      assert CollapseFrom(s, inRun) == head + rest;
      NonSeparatorsAppend(head, rest);
      assert NonSeparators(head) == (if IsSeparator(s[0]) then [] else [s[0]]) by {
        assert head == [] || head[1..] == [];
      }
      CollapseKeepsNonSeparators(s[1..], IsSeparator(s[0]));
    }
  }

  /** Dropping one character outside `[\w\s-]` from a title does not
      change what the filter keeps. */
  lemma RemoveUnsafeSkips(a: string, c: char, b: string)
    requires !IsSafe(c)
    ensures RemoveUnsafe(a + [c] + b) == RemoveUnsafe(a + b)
  {
    RemoveUnsafeAppend(a + [c], b);
    RemoveUnsafeAppend(a, [c]);
    RemoveUnsafeAppend(a, b);
    assert RemoveUnsafe([c]) == [] by {
      assert [c][1..] == [];
    }
    DropEmptyMiddle(RemoveUnsafe(a), RemoveUnsafe([c]), RemoveUnsafe(b));
  }

  /** Dropping one character outside `[\w\s-]` from a title does not
      change its slug. */
  lemma SlugIgnoresUnsafe(a: string, c: char, b: string)
    requires !IsSafe(c)
    ensures Slug(a + [c] + b) == Slug(a + b)
  {
    RemoveUnsafeSkips(a, c, b);
  }

  /** Two words separated by a space slug to the lower-cased words joined
      by one hyphen. */
  lemma SlugOfTwoWords(w1: string, w2: string)
    requires w1 != [] && w2 != []
    requires forall k :: 0 <= k < |w1| ==> IsWord(w1[k])
    requires forall k :: 0 <= k < |w2| ==> IsWord(w2[k])
    ensures Slug(w1 + " " + w2) == LowerAll(w1) + "-" + LowerAll(w2)
  {
    var spaced := w1 + " " + w2;
    var hyphened := w1 + "-" + w2;
    assert RemoveUnsafe(spaced) == spaced by {
      assert forall k :: 0 <= k < |spaced| ==> IsSafe(spaced[k]);
    }
    TwoWordsCollapse(w1, w2);
    assert StripBy(hyphened, IsHyphen) == hyphened by {
      StripByKeepsTrimmed(hyphened, IsHyphen);
    }
    TwoWordsLower(w1, w2);
  }

  lemma TwoWordsCollapse(w1: string, w2: string)
    requires forall k :: 0 <= k < |w1| ==> IsWord(w1[k])
    requires forall k :: 0 <= k < |w2| ==> IsWord(w2[k])
    ensures Collapse(w1 + " " + w2) == w1 + "-" + w2
  {
    assert w1 + " " + w2 == w1 + (" " + w2);
    CollapseWord(w1, " " + w2, false);
    assert (" " + w2)[0] == ' ' && (" " + w2)[1..] == w2;
    assert CollapseFrom(" " + w2, false) == "-" + CollapseFrom(w2, true);
    assert w2 + [] == w2;
    CollapseWord(w2, [], true);
    assert w1 + "-" + w2 == w1 + ("-" + w2);
  }

  lemma TwoWordsLower(w1: string, w2: string)
    ensures LowerAll(w1 + "-" + w2) == LowerAll(w1) + "-" + LowerAll(w2)
  {
    LowerAllAppend(w1 + "-", w2);
    LowerAllAppend(w1, "-");
    assert LowerAll("-") == "-" by {
      assert Lower('-') == '-';
    }
  }

  /** Lower-casing works one character at a time. */
  lemma LowerAllAppend(a: string, b: string)
    ensures LowerAll(a + b) == LowerAll(a) + LowerAll(b)
  {
  }

  /** The index file's name has no hyphen, so no slug with a hyphen in it
      names the index. */
  lemma IndexNameHasNoHyphen()
    ensures forall k :: 0 <= k < |IndexName| ==> IndexName[k] != '-'
  {
  }

  /** A slug is its own slug. */
  lemma SlugOfSlug(s: string)
    requires IsSlug(s)
    ensures Slug(s) == s
  {
    SlugFiltersKeep(s);
    StripByKeepsTrimmed(s, IsHyphen);
    LowerAllKeepsLower(s);
  }

  /** The filter and the collapse leave a slug alone. */
  lemma SlugFiltersKeep(s: string)
    requires IsSlug(s)
    ensures RemoveUnsafe(s) == s && Collapse(s) == s
  {
    assert forall k :: 0 <= k < |s| ==> IsSafe(s[k]) && !IsSpace(s[k]);
    CollapseKeeps(s, false);
  }

  /** The texts a title can be slugged into are exactly the texts of slug
      shape, so slugging twice changes nothing. */
  lemma SlugFixpoints(s: string)
    ensures Slug(s) == s <==> IsSlug(s)
    ensures Slug(Slug(s)) == Slug(s)
  {
    SlugShape(s);
    if IsSlug(s) {
      SlugOfSlug(s);
    }
    SlugOfSlug(Slug(s));
  }

  // ---------------------------------------------------------------------
  // The output directory
  // ---------------------------------------------------------------------

  /** What a file holds: one action, or the index. */
  datatype Record =
    | ActionFile(title: string, content: string)
    | IndexFile(totalActions: nat, titles: seq<string>)

  /** The name of the index file. */
  const IndexName := "index.json"

  /** The name of the file an action with this title is saved to. */
  function FileName(title: string): string {
    Slug(title) + ".json"
  }

  /** The titles of the actions, in order. */
  function Titles(actions: seq<(string, string)>): seq<string> {
    seq(|actions|, k requires 0 <= k < |actions| => actions[k].0)
  }

  /** The file each action is written to, with its record, in list order. */
  function Entries(actions: seq<(string, string)>): seq<(string, Record)> {
    seq(|actions|, k requires 0 <= k < |actions| => (FileName(actions[k].0), ActionFile(actions[k].0, actions[k].1)))
  }

  /** A directory after writing `entries` one after the other, each
      replacing any file of the same name. */
  function Store(files: map<string, Record>, entries: seq<(string, Record)>): map<string, Record>
    decreases |entries|
  {
    if entries == [] then files
    else
      var e := entries[|entries| - 1];
      Store(files, entries[..|entries| - 1])[e.0 := e.1]
  }

  /** The directory after `save_actions`: the action files, then the
      index. */
  function Saved(files: map<string, Record>, actions: seq<(string, string)>): map<string, Record> {
    Store(files, Entries(actions))[IndexName := IndexFile(|actions|, Titles(actions))]
  }

  /** The names written by `entries`. */
  function NamesOf(entries: seq<(string, Record)>): set<string> {
    set k | 0 <= k < |entries| :: entries[k].0
  }

  /** The names of the action files. */
  function ActionFileNames(actions: seq<(string, string)>): set<string> {
    set k | 0 <= k < |actions| :: FileName(actions[k].0)
  }

  /** Writing entries lays one new map over the old directory: the files
      written replace those of the same name, and the rest stay. */
  lemma {:induction false} StoreOverlay(files: map<string, Record>, entries: seq<(string, Record)>)
    ensures Store(files, entries) == files + Store(map[], entries)
    ensures Store(map[], entries).Keys == NamesOf(entries)
    decreases |entries|
  {
    if entries != [] {
      StoreOverlay(files, entries[..|entries| - 1]);
      NamesOfInit(entries);
    }
  }

  /** The names written by all entries are those of all but the last, and
      the last one's. */
  lemma NamesOfInit(entries: seq<(string, Record)>)
    requires entries != []
    ensures NamesOf(entries) == NamesOf(entries[..|entries| - 1]) + {entries[|entries| - 1].0}
  {
    var init, last := entries[..|entries| - 1], entries[|entries| - 1];
    forall name | name in NamesOf(entries)
      ensures name in NamesOf(init) + {last.0}
    {
      var k :| 0 <= k < |entries| && entries[k].0 == name;
      if k < |entries| - 1 {
        assert init[k] == entries[k];
      }
    }
    forall name | name in NamesOf(init)
      ensures name in NamesOf(entries)
    {
      var k :| 0 <= k < |init| && init[k].0 == name;
      assert entries[k] == init[k];
    }
  }

  /** Last write wins: a name holds the record of the last entry with that
      name. */
  lemma {:induction false} StoreLastWins(files: map<string, Record>, entries: seq<(string, Record)>, k: nat)
    requires k < |entries|
    requires forall j :: k < j < |entries| ==> entries[j].0 != entries[k].0
    ensures entries[k].0 in Store(files, entries)
    ensures Store(files, entries)[entries[k].0] == entries[k].1
    decreases |entries|
  {
    if k < |entries| - 1 {
      var init := entries[..|entries| - 1];
      assert init[k] == entries[k];
      forall j | k < j < |init|
        ensures init[j].0 != entries[k].0
      {
        assert init[j] == entries[j];
      }
      StoreLastWins(files, init, k);
    }
  }

  /** One more entry extends the directory by that entry. */
  lemma StorePrefix(files: map<string, Record>, entries: seq<(string, Record)>, i: nat)
    requires i < |entries|
    ensures Store(files, entries[..i + 1]) == Store(files, entries[..i])[entries[i].0 := entries[i].1]
  {
    assert entries[..i + 1][..i] == entries[..i];
  }

  lemma EntryNames(actions: seq<(string, string)>)
    ensures NamesOf(Entries(actions)) == ActionFileNames(actions)
  {
    var entries := Entries(actions);
    assert forall k :: 0 <= k < |actions| ==> entries[k].0 == FileName(actions[k].0);
  }

  /** After saving, the directory holds the files it held before, one file
      per distinct action file name, and the index. */
  lemma SavedNames(files: map<string, Record>, actions: seq<(string, string)>)
    ensures Saved(files, actions).Keys == files.Keys + ActionFileNames(actions) + {IndexName}
  {
    StoreOverlay(files, Entries(actions));
    EntryNames(actions);
  }

  /** Last write wins: the file of an action holds that action when no later
      action has the same file name and the name is not the index's. */
  lemma LastWriteWins(files: map<string, Record>, actions: seq<(string, string)>, k: nat)
    requires k < |actions|
    requires forall j :: k < j < |actions| ==> FileName(actions[j].0) != FileName(actions[k].0)
    requires FileName(actions[k].0) != IndexName
    ensures FileName(actions[k].0) in Saved(files, actions)
    ensures Saved(files, actions)[FileName(actions[k].0)] == ActionFile(actions[k].0, actions[k].1)
  {
    var name, r := FileName(actions[k].0), ActionFile(actions[k].0, actions[k].1);
    EntriesAfter(actions, k);
    StoreLastWins(files, Entries(actions), k);
    SavedKeeps(files, actions, name, r);
  }

  /** Writing the index last leaves every other written file as it was. */
  lemma SavedKeeps(files: map<string, Record>, actions: seq<(string, string)>, name: string, r: Record)
    requires name != IndexName
    requires name in Store(files, Entries(actions)) && Store(files, Entries(actions))[name] == r
    ensures name in Saved(files, actions) && Saved(files, actions)[name] == r
  {
  }

  /** The entry of the `k`-th action, and no later entry with its name. */
  lemma EntriesAfter(actions: seq<(string, string)>, k: nat)
    requires k < |actions|
    requires forall j :: k < j < |actions| ==> FileName(actions[j].0) != FileName(actions[k].0)
    ensures Entries(actions)[k] == (FileName(actions[k].0), ActionFile(actions[k].0, actions[k].1))
    ensures forall j :: k < j < |Entries(actions)| ==> Entries(actions)[j].0 != Entries(actions)[k].0
  {
  }

  /** A file no action names, other than the index, is left as it was. */
  lemma Untouched(files: map<string, Record>, actions: seq<(string, string)>, name: string)
    requires name != IndexName && name !in ActionFileNames(actions)
    ensures name in Saved(files, actions) <==> name in files
    ensures name in files ==> Saved(files, actions)[name] == files[name]
  {
    StoreOverlay(files, Entries(actions));
    EntryNames(actions);
  }

  /** The index is written last, so it holds the count and the titles in
      order even when an action's title slugs to `index`. */
  lemma IndexWrittenLast(files: map<string, Record>, actions: seq<(string, string)>)
    ensures IndexName in Saved(files, actions)
    ensures var index := Saved(files, actions)[IndexName];
            && index.IndexFile?
            && index.totalActions == |actions|
            && |index.titles| == |actions|
            && forall k :: 0 <= k < |actions| ==> index.titles[k] == actions[k].0
  {
  }

  /** Saving the same actions twice leaves the directory as saving them
      once. */
  lemma SavedIdempotent(files: map<string, Record>, actions: seq<(string, string)>)
    ensures Saved(Saved(files, actions), actions) == Saved(files, actions)
  {
    var entries := Entries(actions);
    var once := Saved(files, actions);
    var w := Store(map[], entries);
    var index := IndexFile(|actions|, Titles(actions));
    assert once == (files + w)[IndexName := index] by {
      StoreOverlay(files, entries);
    }
    assert Saved(once, actions) == (once + w)[IndexName := index] by {
      StoreOverlay(once, entries);
    }
    OverlayTwice(files, w, IndexName, index);
  }

  /** Laying the same map and the same last write over a directory twice
      gives what laying them once gives. */
  lemma OverlayTwice(files: map<string, Record>, w: map<string, Record>, name: string, r: Record)
    ensures ((files + w)[name := r] + w)[name := r] == (files + w)[name := r]
  {
  }

  /** Punctuation after either word, such as the colon and the
      exclamation mark of `"Order: A!"`, is filtered out. */
  lemma PunctuationRemoved(w1: string, p1: char, w2: string, p2: char)
    requires !IsSafe(p1) && !IsSafe(p2)
    ensures RemoveUnsafe(w1 + [p1, ' '] + w2 + [p2]) == RemoveUnsafe(w1 + [' '] + w2)
  {
    var t2 := w1 + [' '] + w2;
    var rest := [' '] + w2 + [p2];
    assert w1 + [p1, ' '] + w2 + [p2] == w1 + [p1] + rest;
    RemoveUnsafeSkips(w1, p1, rest);
    assert w1 + rest == t2 + [p2] + [];
    RemoveUnsafeSkips(t2, p2, []);
    assert t2 + [] == t2;
  }

  /** A file name with a hyphen in it is not the index's. */
  lemma HyphenatedNotIndex(name: string, i: nat)
    requires i < |name| && name[i] == '-'
    ensures name != IndexName
  {
    IndexNameHasNoHyphen();
  }

  /** Two titles that differ only in punctuation, such as `"Order: A!"`
      and `"Order A"`, share one file, and the later action overwrites the
      earlier one. */
  lemma TitlesCollide(files: map<string, Record>, w1: string, p1: char, w2: string, p2: char, c1: string, c2: string)
    requires w1 != [] && w2 != []
    requires forall k :: 0 <= k < |w1| ==> IsWord(w1[k])
    requires forall k :: 0 <= k < |w2| ==> IsWord(w2[k])
    requires !IsSafe(p1) && !IsSafe(p2)
    ensures var t1, t2 := w1 + [p1, ' '] + w2 + [p2], w1 + [' '] + w2;
            && FileName(t1) == FileName(t2) == LowerAll(w1) + "-" + LowerAll(w2) + ".json"
            && Saved(files, [(t1, c1), (t2, c2)])[FileName(t1)] == ActionFile(t2, c2)
  {
    var t1, t2 := w1 + [p1, ' '] + w2 + [p2], w1 + [' '] + w2;
    PunctuationRemoved(w1, p1, w2, p2);
    assert Slug(t1) == Slug(t2);
    SlugOfTwoWords(w1, w2);
    var name := LowerAll(w1) + "-" + LowerAll(w2) + ".json";
    assert FileName(t2) == name;
    assert name[|w1|] == '-';
    HyphenatedNotIndex(name, |w1|);
    LastWriteWins(files, [(t1, c1), (t2, c2)], 1);
  }

  // ---------------------------------------------------------------------
  // The directory as state
  // ---------------------------------------------------------------------

  /** The output directory; `files` maps each file name to its record. */
  class OutputDirectory {
    var files: map<string, Record>

    /** An existing directory (created if missing, kept if present). */
    constructor(files: map<string, Record>)
      ensures this.files == files
    {
      this.files := files;
    }

    /** `save_actions`: write each action to the file named after its
        title's slug, in list order, then write the index. */
    method SaveActions(actions: seq<(string, string)>)
      modifies this
      ensures files == Saved(old(files), actions)
    {
      var i := 0;
      while i < |actions|
        invariant 0 <= i <= |actions|
        invariant files == Store(old(files), Entries(actions)[..i])
      {
        var (title, content) := actions[i];
        var safeTitle := Slug(title);
        files := files[safeTitle + ".json" := ActionFile(title, content)];
        StorePrefix(old(files), Entries(actions), i);
        i := i + 1;
      }
      assert Entries(actions)[..i] == Entries(actions);
      files := files[IndexName := IndexFile(|actions|, Titles(actions))];
    }
  }
}
