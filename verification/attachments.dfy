/** The attachment phase of `do_actual_export`: choosing which shared files
    to download (once per URL, once per name within a chat's folder), the
    folder and file names they are stored under, the download loop with its
    byte quota and disk gate, and pointing skipped duplicates at the copy
    that was downloaded. What a download returns is a parameter. */
module Attachments {
  import opened Text
  import opened Collections

  // ------------------------------------------------------------------ names

  /** The characters replaced by `_` in folder and file names. */
  const Unsafe: string := "/\\:*?\"<>|"

  /** The `replace` loop over `'/\\:*?"<>|'`. */
  function Sanitize(s: string): (r: string)
    ensures |r| == |s|
    ensures forall i :: 0 <= i < |r| ==> r[i] !in Unsafe
    ensures forall i :: 0 <= i < |s| && s[i] !in Unsafe ==> r[i] == s[i]
  {
    seq(|s|, i requires 0 <= i < |s| => if s[i] in Unsafe then '_' else s[i])
  }

  /** Sanitising a sanitised name changes nothing. */
  lemma SanitizeIdempotent(s: string)
    ensures Sanitize(Sanitize(s)) == Sanitize(s)
  {
  }

  /** No character of the name is replaced by sanitising. */
  predicate Safe(s: string)
  {
    forall i :: 0 <= i < |s| ==> s[i] !in Unsafe
  }

  /** One candidate text made a folder name: sanitised, stripped, cut to 60
      characters, and "unknown" if nothing is left. A name that is already
      safe, unpadded and short enough is kept as it is. */
  function FolderOf(raw: string): (r: string)
    ensures r != [] && |r| <= 60
    ensures Safe(r)
    ensures Safe(raw) && 0 < |raw| <= 60 && !IsSpace(raw[0]) && !IsSpace(raw[|raw| - 1]) ==> r == raw
  {
    var safe := Sanitize(raw);
    var f := Take(Strip(safe), 60);
    TrimmedStaysSafe(safe);
    UnknownSafe();
    PlainKept(raw);
    if f == [] then "unknown" else f
  }

  /** A safe, unpadded name of at most 60 characters survives cleaning. */
  lemma PlainKept(raw: string)
    ensures Safe(raw) && 0 < |raw| <= 60 && !IsSpace(raw[0]) && !IsSpace(raw[|raw| - 1])
            ==> Take(Strip(Sanitize(raw)), 60) == raw
  {
    if Safe(raw) && 0 < |raw| <= 60 && !IsSpace(raw[0]) && !IsSpace(raw[|raw| - 1]) {
      assert Sanitize(raw) == raw;
      StripNoSpace(raw);
    }
  }

  /** The folder of a chat's files, made from the first non-empty of its
      name, friendly name, id and "unknown". */
  function FolderName(name: string, friendly: string, sn: string): (r: string)
    ensures r != [] && |r| <= 60
    ensures Safe(r)
    ensures name != "" ==> r == FolderOf(name)
    ensures name == "" && friendly != "" ==> r == FolderOf(friendly)
    ensures name == "" && friendly == "" && sn != "" ==> r == FolderOf(sn)
    ensures name == "" && friendly == "" && sn == "" ==> r == "unknown"
  {
    if name != "" then FolderOf(name)
    else if friendly != "" then FolderOf(friendly)
    else if sn != "" then FolderOf(sn)
    else UnknownKept(); FolderOf("unknown")
  }

  /** "unknown" names its own folder. */
  lemma UnknownKept()
    ensures FolderOf("unknown") == "unknown"
  {
    UnknownSafe();
    assert !IsSpace("unknown"[0]) && !IsSpace("unknown"[6]);
  }

  lemma UnknownSafe()
    ensures Safe("unknown")
  {
    forall i | 0 <= i < 7
      ensures "unknown"[i] !in Unsafe
    {
      assert "unknown"[i] in "unknow";
    }
  }

  /** Stripping and cutting a sanitised name brings no unsafe character back. */
  lemma TrimmedStaysSafe(safe: string)
    requires Safe(safe)
    ensures Safe(Take(Strip(safe), 60))
  {
    var t := Strip(safe);
    StripChars(safe);
    forall i | 0 <= i < |Take(t, 60)|
      ensures Take(t, 60)[i] !in Unsafe
    {
      assert Take(t, 60)[i] == t[i];
      assert t[i] in safe;
    }
  }

  /** Every character of the name is a dot. */
  predicate AllDots(s: string)
  {
    forall i :: 0 <= i < |s| ==> s[i] == '.'
  }

  /** `os.path.splitext` on a name without slashes: the extension runs from
      the last dot, unless only dots precede it. */
  function SplitExt(s: string): (r: (string, string))
    ensures r.0 + r.1 == s
    ensures r.1 == [] || (r.1[0] == '.' && '.' !in r.1[1..] && !AllDots(r.0))
    ensures r.1 == [] ==> '.' !in s || AllDots(s[..LastIndexOf(s, '.')])
  {
    if '.' !in s then (s, "")
    else
      var k := LastIndexOf(s, '.');
      if AllDots(s[..k]) then (s, "")
      else
        assert s[..k] + s[k..] == s;
        assert s[k..][1..] == s[k + 1..];
        (s[..k], s[k..])
  }

  // --------------------------------------------------------------- planning

  /** A `filesharing` entry; an empty text stands for a missing field. */
  datatype Shared = Shared(url: string, name: string, size: int, mime: string)

  /** A shared file together with the folder of the chat it was found in,
      in the order the chats and their messages are walked. */
  datatype Item = Item(folder: string, file: Shared)

  /** An entry of `all_files`: the URL, the name as shared, the name to
      store it under ("file" for a nameless one), size, type and folder. */
  datatype Planned = Planned(url: string, origName: string, name: string, size: int, mime: string, folder: string)

  function UrlOf(p: Planned): string
  {
    p.url
  }

  /** The loop variables: `all_files` in insertion order, `seen_keys`,
      `name_to_url`, the same map keyed by folder and name, and
      `duplicate_url_map` with the order its keys were first inserted in
      (the order its `items()` are walked). */
  datatype PlanState = PlanState(
    planned: seq<Planned>,
    seen: set<(string, string)>,
    nameToUrl: map<string, string>,
    keyToUrl: map<(string, string), string>,
    dups: map<string, string>,
    dupOrder: seq<string>)

  const NoPlan := PlanState([], {}, map[], map[], map[], [])

  /** One file of the loop. URL-less files and URLs already planned are
      skipped. A named file whose (folder, name) was seen is not planned but
      recorded as a duplicate: as written, pointing at the last file planned
      under that name in any folder (`byFolder` false); corrected, at the
      file planned under that name in the same folder (`byFolder` true).
      Anything else is planned, and a named one marks its (folder, name). */
  function PlanStep(st: PlanState, it: Item, byFolder: bool): (r: PlanState)
    ensures it.file.url == "" || it.file.url in Map(st.planned, UrlOf) ==> r == st
    ensures r.planned == st.planned || r.planned == st.planned + [NewPlanned(it)]
    ensures r.planned != st.planned ==> r.dups == st.dups && r.dupOrder == st.dupOrder
    ensures r.dups != st.dups ==>
      && r.planned == st.planned
      && it.file.name != "" && (it.folder, it.file.name) in st.seen
      && r.dups.Keys == st.dups.Keys + {it.file.url}
      && (forall u :: u in st.dups && u != it.file.url ==> r.dups[u] == st.dups[u])
    ensures |r.planned| + |r.dupOrder| <= |st.planned| + |st.dupOrder| + 1
  {
    var f := it.file;
    var key := (it.folder, f.name);
    if f.url == "" || f.url in Map(st.planned, UrlOf) then st
    else if f.name != "" && key in st.seen then
      var target :=
        if byFolder then (if key in st.keyToUrl then st.keyToUrl[key] else f.url)
        else (if f.name in st.nameToUrl then st.nameToUrl[f.name] else f.url);
      st.(dups := st.dups[f.url := target],
          dupOrder := if f.url in st.dups then st.dupOrder else st.dupOrder + [f.url])
    else
      var p := Planned(f.url, f.name, if f.name != "" then f.name else "file", f.size, f.mime, it.folder);
      if f.name != "" then
        st.(planned := st.planned + [p], seen := st.seen + {key},
            nameToUrl := st.nameToUrl[f.name := f.url], keyToUrl := st.keyToUrl[key := f.url])
      else st.(planned := st.planned + [p])
  }

  /** The planning loop over all items: each item is planned or recorded
      as a duplicate at most once. */
  function Plan(items: seq<Item>, byFolder: bool): (r: PlanState)
    ensures |r.planned| + |r.dupOrder| <= |items|
    ensures forall k :: 0 <= k < |r.planned| ==> r.planned[k].url != ""
    decreases |items|
  {
    if items == [] then NoPlan
    else PlanStep(Plan(items[..|items| - 1], byFolder), items[|items| - 1], byFolder)
  }

  /** The (folder, name) key of a planned file. */
  function KeyOf(p: Planned): (string, string)
  {
    (p.folder, p.origName)
  }

  /** What planning keeps true: URLs are planned once; named files are
      planned once per folder; `seen` and the keyed map hold exactly the
      keys of the named planned files, and the map gives each key's URL. */
  ghost predicate PlanInv(st: PlanState)
  {
    && NoDup(Map(st.planned, UrlOf))
    && (forall i, j :: 0 <= i < j < |st.planned| && st.planned[i].origName != "" ==>
          KeyOf(st.planned[i]) != KeyOf(st.planned[j]))
    && st.seen == st.keyToUrl.Keys
    && Witnessed(st)
    && KeysSeen(st)
  }

  /** Each key of the keyed map belongs to a named planned file with that URL. */
  ghost predicate Witnessed(st: PlanState)
  {
    forall k :: k in st.keyToUrl ==>
      exists i :: 0 <= i < |st.planned| && st.planned[i].origName != ""
                  && KeyOf(st.planned[i]) == k && st.planned[i].url == st.keyToUrl[k]
  }

  /** The key of every named planned file has been seen. */
  ghost predicate KeysSeen(st: PlanState)
  {
    forall i :: 0 <= i < |st.planned| && st.planned[i].origName != "" ==> KeyOf(st.planned[i]) in st.seen
  }

  /** The step that plans a new file, spelled out. */
  predicate PlansNew(st: PlanState, it: Item)
  {
    && it.file.url != "" && it.file.url !in Map(st.planned, UrlOf)
    && !(it.file.name != "" && (it.folder, it.file.name) in st.seen)
  }

  function NewPlanned(it: Item): Planned
  {
    Planned(it.file.url, it.file.name, if it.file.name != "" then it.file.name else "file",
            it.file.size, it.file.mime, it.folder)
  }

  lemma StepShape(st: PlanState, it: Item, byFolder: bool)
    ensures var st' := PlanStep(st, it, byFolder);
      && (PlansNew(st, it) ==> st'.planned == st.planned + [NewPlanned(it)])
      && (!PlansNew(st, it) ==> st'.planned == st.planned && st'.seen == st.seen && st'.keyToUrl == st.keyToUrl)
      && (PlansNew(st, it) && it.file.name != "" ==>
            st'.seen == st.seen + {(it.folder, it.file.name)}
            && st'.keyToUrl == st.keyToUrl[(it.folder, it.file.name) := it.file.url])
      && (PlansNew(st, it) && it.file.name == "" ==> st'.seen == st.seen && st'.keyToUrl == st.keyToUrl)
  {
  }

  lemma StepUrlsUnique(st: PlanState, it: Item, byFolder: bool)
    requires NoDup(Map(st.planned, UrlOf))
    ensures NoDup(Map(PlanStep(st, it, byFolder).planned, UrlOf))
  {
    StepShape(st, it, byFolder);
    if PlansNew(st, it) {
      var ps := st.planned + [NewPlanned(it)];
      var us := Map(ps, UrlOf);
      assert us == Map(st.planned, UrlOf) + [it.file.url];
      forall i, j | 0 <= i < j < |us|
        ensures us[i] != us[j]
      {
        if j == |st.planned| {
          assert us[i] == Map(st.planned, UrlOf)[i];
        }
      }
    }
  }

  lemma StepKeysUnique(st: PlanState, it: Item, byFolder: bool)
    requires forall i, j :: 0 <= i < j < |st.planned| && st.planned[i].origName != "" ==>
               KeyOf(st.planned[i]) != KeyOf(st.planned[j])
    requires forall i :: 0 <= i < |st.planned| && st.planned[i].origName != "" ==> KeyOf(st.planned[i]) in st.seen
    ensures var ps := PlanStep(st, it, byFolder).planned;
      forall i, j :: 0 <= i < j < |ps| && ps[i].origName != "" ==> KeyOf(ps[i]) != KeyOf(ps[j])
  {
    StepShape(st, it, byFolder);
    if PlansNew(st, it) {
      var ps := st.planned + [NewPlanned(it)];
      forall i, j | 0 <= i < j < |ps| && ps[i].origName != ""
        ensures KeyOf(ps[i]) != KeyOf(ps[j])
      {
        if j == |st.planned| {
          assert KeyOf(st.planned[i]) in st.seen;
        }
      }
    }
  }

  lemma StepKeyMap(st: PlanState, it: Item, byFolder: bool)
    requires PlanInv(st)
    ensures var st' := PlanStep(st, it, byFolder);
      st'.seen == st'.keyToUrl.Keys && Witnessed(st') && KeysSeen(st')
  {
    StepShape(st, it, byFolder);
    StepWitnessed(st, it, byFolder);
    StepKeysSeen(st, it, byFolder);
  }

  lemma StepWitnessed(st: PlanState, it: Item, byFolder: bool)
    requires Witnessed(st)
    ensures Witnessed(PlanStep(st, it, byFolder))
  {
    StepShape(st, it, byFolder);
    var st' := PlanStep(st, it, byFolder);
    if PlansNew(st, it) {
      var n := |st.planned|;
      assert st'.planned[n] == NewPlanned(it);
      forall k | k in st'.keyToUrl
        ensures exists i :: 0 <= i < |st'.planned| && st'.planned[i].origName != ""
                            && KeyOf(st'.planned[i]) == k && st'.planned[i].url == st'.keyToUrl[k]
      {
        if it.file.name != "" && k == (it.folder, it.file.name) {
          assert KeyOf(st'.planned[n]) == k;
        } else {
          var i :| 0 <= i < n && st.planned[i].origName != ""
                   && KeyOf(st.planned[i]) == k && st.planned[i].url == st.keyToUrl[k];
          assert st'.planned[i] == st.planned[i];
        }
      }
    }
  }

  lemma StepKeysSeen(st: PlanState, it: Item, byFolder: bool)
    requires KeysSeen(st)
    ensures KeysSeen(PlanStep(st, it, byFolder))
  {
    StepShape(st, it, byFolder);
    var st' := PlanStep(st, it, byFolder);
    if PlansNew(st, it) {
      var n := |st.planned|;
      forall i | 0 <= i < |st'.planned| && st'.planned[i].origName != ""
        ensures KeyOf(st'.planned[i]) in st'.seen
      {
        if i < n {
          assert st'.planned[i] == st.planned[i];
        }
      }
    }
  }

  lemma PlanStepInv(st: PlanState, it: Item, byFolder: bool)
    requires PlanInv(st)
    ensures PlanInv(PlanStep(st, it, byFolder))
  {
    StepUrlsUnique(st, it, byFolder);
    StepKeysUnique(st, it, byFolder);
    StepKeyMap(st, it, byFolder);
  }

  lemma {:induction false} PlanInvariant(items: seq<Item>, byFolder: bool)
    ensures PlanInv(Plan(items, byFolder))
    decreases |items|
  {
    if items != [] {
      PlanInvariant(items[..|items| - 1], byFolder);
      PlanStepInv(Plan(items[..|items| - 1], byFolder), items[|items| - 1], byFolder);
    }
  }

  /** Each URL is planned at most once, and within a folder each non-empty
      name at most once. */
  lemma PlanDeduplicates(items: seq<Item>, byFolder: bool)
    ensures var ps := Plan(items, byFolder).planned;
      && NoDup(Map(ps, UrlOf))
      && (forall i, j :: 0 <= i < j < |ps| && ps[i].origName != "" ==> KeyOf(ps[i]) != KeyOf(ps[j]))
  {
    PlanInvariant(items, byFolder);
  }

  /** Every file with a URL is planned or recorded as a duplicate; one
      without a name is always planned, never taken for a duplicate. */
  lemma {:induction false} PlanCovers(items: seq<Item>, byFolder: bool, i: nat)
    requires i < |items| && items[i].file.url != ""
    ensures var st := Plan(items, byFolder);
      items[i].file.url in Map(st.planned, UrlOf) || items[i].file.url in st.dups
    ensures items[i].file.name == "" ==> items[i].file.url in Map(Plan(items, byFolder).planned, UrlOf)
    decreases |items|
  {
    var n := |items| - 1;
    var init := items[..n];
    var st := Plan(init, byFolder);
    var st' := Plan(items, byFolder);
    assert st' == PlanStep(st, items[n], byFolder);
    PlannedGrows(st, items[n], byFolder);
    if i < n {
      assert items[i] == init[i];
      PlanCovers(init, byFolder, i);
      if items[i].file.url in st.dups && items[i].file.url !in st'.dups {
        assert false;
      }
    } else {
      var f := items[n].file;
      if f.url !in Map(st.planned, UrlOf) && !(f.name != "" && (items[n].folder, f.name) in st.seen) {
        assert st'.planned[|st.planned|].url == f.url;
        assert Map(st'.planned, UrlOf)[|st.planned|] == f.url;
      }
    }
  }

  /** A step only appends to the plan and only adds duplicates. */
  lemma PlannedGrows(st: PlanState, it: Item, byFolder: bool)
    ensures var st' := PlanStep(st, it, byFolder);
      && st.planned <= st'.planned
      && (forall u :: u in Map(st.planned, UrlOf) ==> u in Map(st'.planned, UrlOf))
      && st.dups.Keys <= st'.dups.Keys
  {
    var st' := PlanStep(st, it, byFolder);
    forall u | u in Map(st.planned, UrlOf)
      ensures u in Map(st'.planned, UrlOf)
    {
      var i :| 0 <= i < |st.planned| && Map(st.planned, UrlOf)[i] == u;
      assert Map(st'.planned, UrlOf)[i] == u;
    }
  }

  /** A duplicate entry is old and unchanged, or made by this step. */
  lemma DupStep(st: PlanState, it: Item, byFolder: bool, d: string)
    requires d in PlanStep(st, it, byFolder).dups
    ensures || (d in st.dups && PlanStep(st, it, byFolder).dups[d] == st.dups[d])
            || (&& d == it.file.url && it.file.url != "" && it.file.url !in Map(st.planned, UrlOf)
                && it.file.name != "" && (it.folder, it.file.name) in st.seen
                && PlanStep(st, it, byFolder).dups[d] == DupTarget(st, it, byFolder))
  {
  }

  /** The URL a duplicate is pointed at. */
  function DupTarget(st: PlanState, it: Item, byFolder: bool): string
  {
    var key := (it.folder, it.file.name);
    if byFolder then (if key in st.keyToUrl then st.keyToUrl[key] else it.file.url)
    else (if it.file.name in st.nameToUrl then st.nameToUrl[it.file.name] else it.file.url)
  }

  /** Corrected: a duplicate points at the planned file with its own folder
      and name. */
  lemma {:induction false} DupTargetsSameFolder(items: seq<Item>, d: string)
    requires d in Plan(items, true).dups
    ensures var st := Plan(items, true);
      exists i, j :: 0 <= i < |items| && 0 <= j < |st.planned|
        && items[i].file.url == d && items[i].file.name != ""
        && st.planned[j].url == st.dups[d]
        && KeyOf(st.planned[j]) == (items[i].folder, items[i].file.name)
    decreases |items|
  {
    var n := |items| - 1;
    var init := items[..n];
    var st := Plan(init, true);
    var it := items[n];
    assert Plan(items, true) == PlanStep(st, it, true);
    PlannedGrows(st, it, true);
    DupStep(st, it, true, d);
    var st' := Plan(items, true);
    if d in st.dups && st'.dups[d] == st.dups[d] {
      DupTargetsSameFolder(init, d);
      var i, j :| 0 <= i < |init| && 0 <= j < |st.planned|
        && init[i].file.url == d && init[i].file.name != ""
        && st.planned[j].url == st.dups[d]
        && KeyOf(st.planned[j]) == (init[i].folder, init[i].file.name);
      assert items[i] == init[i] && st'.planned[j] == st.planned[j];
    } else {
      PlanInvariant(init, true);
      var key := (it.folder, it.file.name);
      assert key in st.keyToUrl;
      var j :| 0 <= j < |st.planned| && st.planned[j].origName != ""
               && KeyOf(st.planned[j]) == key && st.planned[j].url == st.keyToUrl[key];
      assert st'.planned[j] == st.planned[j];
      assert items[n] == it;
    }
  }

  const ItemF1 := Item("F", Shared("u1", "n", 0, ""))
  const ItemG2 := Item("G", Shared("u2", "n", 0, ""))
  const ItemF3 := Item("F", Shared("u3", "n", 0, ""))

  /** The three-file plan, one step at a time. */
  lemma ThreeSteps(byFolder: bool)
    ensures var s1 := PlanStep(NoPlan, ItemF1, byFolder);
      var s2 := PlanStep(s1, ItemG2, byFolder);
      && Plan([ItemF1, ItemG2, ItemF3], byFolder) == PlanStep(s2, ItemF3, byFolder)
      && s2.planned == [NewPlanned(ItemF1), NewPlanned(ItemG2)]
      && Map(s2.planned, UrlOf) == ["u1", "u2"]
      && s2.seen == {("F", "n"), ("G", "n")}
      && s2.nameToUrl == map["n" := "u2"]
      && s2.keyToUrl == map[("F", "n") := "u1", ("G", "n") := "u2"]
  {
    var items := [ItemF1, ItemG2, ItemF3];
    assert items[..2] == [ItemF1, ItemG2];
    assert items[..2][..1] == [ItemF1];
    assert [ItemF1][..0] == [];
    var s1 := PlanStep(NoPlan, ItemF1, byFolder);
    assert Map(NoPlan.planned, UrlOf) == [];
    assert s1.planned == [NewPlanned(ItemF1)];
    assert Map(s1.planned, UrlOf) == ["u1"];
    assert Plan([ItemF1], byFolder) == s1;
    var s2 := PlanStep(s1, ItemG2, byFolder);
    assert Plan([ItemF1, ItemG2], byFolder) == s2;
    assert s2.planned == [NewPlanned(ItemF1), NewPlanned(ItemG2)];
  }

  /** As written, `name_to_url` forgets the folder: with two chats sharing
      the folder "F" and another chat "G" in between, all sharing a file
      named "n", the third file is taken as a duplicate of the first but
      pointed at the file of chat "G". */
  lemma DupTargetOtherFolder()
    ensures var st := Plan([ItemF1, ItemG2, ItemF3], false);
      && "u3" in st.dups && st.dups["u3"] == "u2"
      && |st.planned| == 2 && st.planned[1].url == "u2" && st.planned[1].folder == "G"
  {
    ThreeSteps(false);
  }

  /** The corrected plan points the same third file at the first one. */
  lemma DupTargetFixed()
    ensures var st := Plan([ItemF1, ItemG2, ItemF3], true);
      && "u3" in st.dups && st.dups["u3"] == "u1"
      && |st.planned| == 2 && st.planned[0].url == "u1" && st.planned[0].folder == "F"
  {
    ThreeSteps(true);
  }

  // ----------------------------------------------------------------- naming

  /** `{pre}{k}{post}`: the k-th candidate name. */
  function Candidate(pre: string, post: string, k: nat): string
  {
    pre + NatToString(k) + post
  }

  /** Different numbers give different candidates. */
  lemma CandidateInjective(pre: string, post: string, a: nat, b: nat)
    requires Candidate(pre, post, a) == Candidate(pre, post, b)
    ensures a == b
  {
    var x := NatToString(a);
    var y := NatToString(b);
    var c := Candidate(pre, post, a);
    assert |x| == |y|;
    assert c[|pre|..|pre| + |x|] == x;
    assert Candidate(pre, post, b)[|pre|..|pre| + |y|] == y;
    ParseNatToString(a);
    ParseNatToString(b);
  }

  /** The first candidate from `k` on that is not in `used`. */
  function FreshIndex(used: set<string>, pre: string, post: string, k: nat): (r: nat)
    ensures r >= k
    decreases |used|
  {
    if Candidate(pre, post, k) in used
    then FreshIndex(used - {Candidate(pre, post, k)}, pre, post, k + 1)
    else k
  }

  lemma {:induction false} FreshIndexUnused(used: set<string>, pre: string, post: string, k: nat)
    ensures Candidate(pre, post, FreshIndex(used, pre, post, k)) !in used
    decreases |used|
  {
    var c := Candidate(pre, post, k);
    if c in used {
      var r := FreshIndex(used - {c}, pre, post, k + 1);
      FreshIndexUnused(used - {c}, pre, post, k + 1);
      if Candidate(pre, post, r) == c {
        CandidateInjective(pre, post, r, k);
      }
    }
  }

  /** The name a planned file is stored under before collisions: its
      sanitised name, or `file_{i}` if that is empty. */
  function SafeName(p: Planned, i: nat): string
  {
    var s := Sanitize(p.name);
    if s == "" then "file_" + NatToString(i) else s
  }

  /** The relative path of planned file number `i` given the paths already
      used. On a collision the index is put before the extension; as written
      (`recheck` false) that path is taken without a second look, corrected
      (`recheck` true) the first unused index from `i` on is taken. */
  function RelPath(used: set<string>, p: Planned, i: nat, recheck: bool): (rel: string)
    ensures StartsWith(rel, p.folder + "/")
    ensures recheck ==> rel !in used
  {
    var dir := p.folder + "/";
    var safe := SafeName(p, i);
    var rel := dir + safe;
    InDir(dir, safe);
    if rel !in used then rel
    else
      var be := SplitExt(safe);
      var pre := dir + be.0 + "_";
      if recheck then
        var k := FreshIndex(used, pre, be.1, i);
        FreshIndexUnused(used, pre, be.1, i);
        CandidateInDir(dir, be.0, be.1, k);
        Candidate(pre, be.1, k)
      else
        CandidateInDir(dir, be.0, be.1, i);
        Candidate(pre, be.1, i)
  }

  lemma CandidateInDir(dir: string, stem: string, ext: string, k: nat)
    ensures StartsWith(Candidate(dir + stem + "_", ext, k), dir)
  {
    assert Candidate(dir + stem + "_", ext, k) == dir + (stem + "_" + NatToString(k) + ext);
    InDir(dir, stem + "_" + NatToString(k) + ext);
  }

  lemma InDir(dir: string, name: string)
    ensures StartsWith(dir + name, dir)
  {
    assert (dir + name)[..|dir|] == dir;
  }

  function ToSet(s: seq<string>): set<string>
  {
    set x | x in s
  }

  /** The naming loop over `all_files`: `used_rel_paths` holds the paths
      given so far. */
  function RelPaths(planned: seq<Planned>, recheck: bool): (rels: seq<string>)
    ensures |rels| == |planned|
    ensures forall i :: 0 <= i < |rels| ==> StartsWith(rels[i], planned[i].folder + "/")
    decreases |planned|
  {
    if planned == [] then []
    else
      var n := |planned| - 1;
      var rs := RelPaths(planned[..n], recheck);
      var r := RelPath(ToSet(rs), planned[n], n, recheck);
      AppendInDirs(planned, rs, r);
      rs + [r]
  }

  lemma AppendInDirs(planned: seq<Planned>, rs: seq<string>, r: string)
    requires |planned| == |rs| + 1
    requires forall i :: 0 <= i < |rs| ==> StartsWith(rs[i], planned[..|rs|][i].folder + "/")
    requires StartsWith(r, planned[|rs|].folder + "/")
    ensures forall i :: 0 <= i < |planned| ==> StartsWith((rs + [r])[i], planned[i].folder + "/")
  {
    forall i | 0 <= i < |planned|
      ensures StartsWith((rs + [r])[i], planned[i].folder + "/")
    {
      if i < |rs| {
        assert planned[..|rs|][i] == planned[i];
      }
    }
  }

  /** Corrected: no two files share a path. */
  lemma {:induction false} RelPathsUnique(planned: seq<Planned>)
    ensures NoDup(RelPaths(planned, true))
    decreases |planned|
  {
    if planned != [] {
      var n := |planned| - 1;
      var rs := RelPaths(planned[..n], true);
      RelPathsUnique(planned[..n]);
      var r := rs + [RelPath(ToSet(rs), planned[n], n, true)];
      forall i, j | 0 <= i < j < |r|
        ensures r[i] != r[j]
      {
        if j == n {
          assert r[i] == rs[i] && rs[i] in ToSet(rs);
        }
      }
    }
  }

  const ItemA := Item("F", Shared("a", "file_2", 0, ""))
  const ItemB := Item("F", Shared("b", "", 0, ""))
  const ItemC := Item("F", Shared("c", "", 0, ""))

  /** A chat sharing a file named "file_2" and two nameless files plans all
      three, the nameless ones under "file". */
  lemma NamelessPlanned(byFolder: bool)
    ensures Plan([ItemA, ItemB, ItemC], byFolder).planned
         == [NewPlanned(ItemA), NewPlanned(ItemB), NewPlanned(ItemC)]
  {
    var s1 := PlanStep(NoPlan, ItemA, byFolder);
    assert Map(NoPlan.planned, UrlOf) == [];
    assert Plan([ItemA], byFolder) == s1 by {
      assert [ItemA][..0] == [];
    }
    assert Map(s1.planned, UrlOf) == ["a"];
    var s2 := PlanStep(s1, ItemB, byFolder);
    assert Plan([ItemA, ItemB], byFolder) == s2 by {
      assert [ItemA, ItemB][..1] == [ItemA];
    }
    assert Map(s2.planned, UrlOf) == ["a", "b"];
    assert [ItemA, ItemB, ItemC][..2] == [ItemA, ItemB];
  }

  lemma SafeNames()
    ensures SafeName(NewPlanned(ItemA), 0) == "file_2"
    ensures SafeName(NewPlanned(ItemB), 1) == "file"
    ensures SafeName(NewPlanned(ItemC), 2) == "file"
  {
    var s := Sanitize("file_2");
    forall k | 0 <= k < 6
      ensures s[k] == "file_2"[k]
    {
      assert "file_2"[k] !in Unsafe;
    }
    assert NatToString(1) == "1" && NatToString(2) == "2";
  }

  lemma FirstTwoPaths(recheck: bool)
    ensures RelPaths([NewPlanned(ItemA), NewPlanned(ItemB)], recheck) == ["F/file_2", "F/file"]
  {
    SafeNames();
    var ps := [NewPlanned(ItemA), NewPlanned(ItemB)];
    assert ps[..1] == [ps[0]] && [ps[0]][..0] == [];
    assert ToSet([]) == {};
    var r1 := RelPaths([ps[0]], recheck);
    assert RelPath({}, ps[0], 0, recheck) == "F/file_2";
    assert r1 == ["F/file_2"];
    assert "F/file" !in ToSet(r1);
    assert RelPath(ToSet(r1), ps[1], 1, recheck) == "F/file";
  }

  /** With "F/file_2" and "F/file" taken, the third file lands on
      "F/file_2" as written and on "F/file_3" corrected. */
  lemma ThirdPath(recheck: bool)
    ensures RelPath(ToSet(["F/file_2", "F/file"]), NewPlanned(ItemC), 2, recheck)
         == if recheck then "F/file_3" else "F/file_2"
  {
    var used := ToSet(["F/file_2", "F/file"]);
    var p := NewPlanned(ItemC);
    ThirdCollides();
    assert Candidate("F/file_", "", 2) == "F/file_2" by {
      assert NatToString(2) == "2";
    }
    if recheck {
      var rest := used - {"F/file_2"};
      assert "F/file_3" !in rest;
      assert FreshIndex(rest, "F/file_", "", 3) == 3;
      assert FreshIndex(used, "F/file_", "", 2) == 3;
      assert Candidate("F/file_", "", 3) == "F/file_3" by {
        assert NatToString(3) == "3";
      }
    }
  }

  /** The third file's own path is taken; its candidates are `F/file_{k}`. */
  lemma ThirdCollides()
    ensures var p := NewPlanned(ItemC);
      && p.folder + "/" + SafeName(p, 2) in ToSet(["F/file_2", "F/file"])
      && SplitExt(SafeName(p, 2)) == ("file", "")
      && p.folder + "/" + "file" + "_" == "F/file_"
  {
    SafeNames();
    var p := NewPlanned(ItemC);
    assert p.folder + "/" + SafeName(p, 2) == "F/file";
    assert "F/file" in ToSet(["F/file_2", "F/file"]);
    assert SplitExt("file") == ("file", "");
  }

  /** The three paths given to the planned files. */
  lemma NamelessPaths(recheck: bool)
    ensures var ps := [NewPlanned(ItemA), NewPlanned(ItemB), NewPlanned(ItemC)];
      var rels := RelPaths(ps, recheck);
      && rels[0] == "F/file_2" && rels[1] == "F/file"
      && rels[2] == (if recheck then "F/file_3" else "F/file_2")
  {
    var ps := [NewPlanned(ItemA), NewPlanned(ItemB), NewPlanned(ItemC)];
    assert ps[..2] == [NewPlanned(ItemA), NewPlanned(ItemB)];
    FirstTwoPaths(recheck);
    ThirdPath(recheck);
  }

  /** As written, the collision suffix is not checked again: a chat sharing
      "file_2" and two nameless files gets two files stored at "F/file_2". */
  lemma CollidingPaths()
    ensures var rels := RelPaths(Plan([ItemA, ItemB, ItemC], false).planned, false);
      |rels| == 3 && rels[0] == rels[2]
  {
    NamelessPlanned(false);
    NamelessPaths(false);
  }

  /** Corrected, the same files get three different paths. */
  lemma DistinctPaths()
    ensures var rels := RelPaths(Plan([ItemA, ItemB, ItemC], true).planned, true);
      |rels| == 3 && rels[0] != rels[2] && NoDup(rels)
  {
    NamelessPlanned(true);
    NamelessPaths(true);
    RelPathsUnique(Plan([ItemA, ItemB, ItemC], true).planned);
  }

  // -------------------------------------------------------------- downloads

  /** What fetching one file gave: no download link, a body of `size` bytes
      (zero when the body is empty), or an exception. */
  datatype Fetch = NoLink | Payload(size: nat) | FetchError

  const GiB: nat := 1024 * 1024 * 1024

  /** `files_url_map`, `downloaded_files` and `total_bytes` after the
      downloads. */
  datatype Downloads = Downloads(local: map<string, string>, count: nat, totalBytes: nat)

  /** Where the export's file server serves a stored file. */
  function LocalBase(publicUrl: string, exportId: string): string
  {
    publicUrl + "/files/" + exportId + "/"
  }

  /** The (url, path) pairs the files are fetched to, in planning order. */
  function FileList(planned: seq<Planned>, recheck: bool): (r: seq<(string, string)>)
    ensures |r| == |planned|
    ensures forall i :: 0 <= i < |r| ==> r[i].0 == planned[i].url
  {
    var rels := RelPaths(planned, recheck);
    seq(|planned|, i requires 0 <= i < |planned| => (planned[i].url, rels[i]))
  }

  /** One download: skipped once the running total reaches the quota; a
      non-empty body is counted, added to the total and linked under its
      path. What fetching a url gives is a parameter. */
  function DownloadOne(d: Downloads, file: (string, string), fetch: string -> Fetch, maxBytes: nat, base: string): (r: Downloads)
    ensures d.totalBytes >= maxBytes ==> r == d
    ensures r.count == d.count + 1 <==> d.totalBytes < maxBytes && BodySize(fetch(file.0)) > 0
    ensures r.count != d.count + 1 ==> r == d
    ensures r.count == d.count + 1 ==>
      && r.totalBytes == d.totalBytes + BodySize(fetch(file.0))
      && r.local == d.local[file.0 := base + file.1]
  {
    if d.totalBytes >= maxBytes then d
    else match fetch(file.0)
      case Payload(size) =>
        if size > 0 then Downloads(d.local[file.0 := base + file.1], d.count + 1, d.totalBytes + size) else d
      case _ => d
  }

  /** The downloads, one after another in list order. */
  function Download(files: seq<(string, string)>, fetch: string -> Fetch, maxBytes: nat, base: string): (d: Downloads)
    ensures d.count <= |files|
    ensures d.local.Keys <= set i | 0 <= i < |files| :: files[i].0
  {
    if files == [] then Downloads(map[], 0, 0)
    else
      var n := |files| - 1;
      DownloadOne(Download(files[..n], fetch, maxBytes, base), files[n], fetch, maxBytes, base)
  }

  /** When no fetch yields a body (every attempt raises, as happens while
      the client lacks the download calls), nothing is downloaded or
      linked, whatever the files. */
  lemma {:induction false} NothingFetched(files: seq<(string, string)>, fetch: string -> Fetch, maxBytes: nat, base: string)
    requires forall u :: !fetch(u).Payload?
    ensures Download(files, fetch, maxBytes, base) == Downloads(map[], 0, 0)
  {
    if files != [] {
      NothingFetched(files[..|files| - 1], fetch, maxBytes, base);
    }
  }

  /** The file at position `i` was started: the quota was not yet reached. */
  predicate Admitted(files: seq<(string, string)>, fetch: string -> Fetch, maxBytes: nat, base: string, i: nat)
    requires i <= |files|
  {
    Download(files[..i], fetch, maxBytes, base).totalBytes < maxBytes
  }

  function BodySize(f: Fetch): nat
  {
    if f.Payload? then f.size else 0
  }

  /** Once the total reaches the quota no later file is downloaded. */
  lemma {:induction false} QuotaClosesForGood(files: seq<(string, string)>, fetch: string -> Fetch, maxBytes: nat, base: string, i: nat)
    requires i <= |files|
    requires !Admitted(files, fetch, maxBytes, base, i)
    ensures Download(files, fetch, maxBytes, base) == Download(files[..i], fetch, maxBytes, base)
    decreases |files| - i
  {
    if i < |files| {
      var n := |files| - 1;
      assert files[..n][..i] == files[..i];
      QuotaClosesForGood(files[..n], fetch, maxBytes, base, i);
      assert files[..n] == files[..|files[..n]|];
    } else {
      assert files[..i] == files;
    }
  }

  /** The quota is overshot by less than one file: the last file started
      while the total was below it. */
  lemma {:induction false} QuotaOvershoot(files: seq<(string, string)>, fetch: string -> Fetch, maxBytes: nat, base: string, cap: nat)
    requires forall u :: BodySize(fetch(u)) <= cap
    ensures var d := Download(files, fetch, maxBytes, base);
      d.totalBytes == 0 || d.totalBytes < maxBytes + cap
  {
    if files != [] {
      var n := |files| - 1;
      QuotaOvershoot(files[..n], fetch, maxBytes, base, cap);
      assert BodySize(fetch(files[n].0)) <= cap;
    }
  }

  /** Each file adds at most `cap` bytes. */
  lemma {:induction false} TotalBound(files: seq<(string, string)>, fetch: string -> Fetch, maxBytes: nat, base: string, cap: nat)
    requires forall u :: BodySize(fetch(u)) <= cap
    ensures Download(files, fetch, maxBytes, base).totalBytes <= |files| * cap
  {
    if files != [] {
      var n := |files| - 1;
      TotalBound(files[..n], fetch, maxBytes, base, cap);
      assert BodySize(fetch(files[n].0)) <= cap;
      assert |files| * cap == n * cap + cap;
    }
  }

  /** A url is linked exactly when some file with that url was started and
      its body was not empty. */
  lemma {:induction false} DownloadedIff(files: seq<(string, string)>, fetch: string -> Fetch, maxBytes: nat, base: string, url: string)
    ensures url in Download(files, fetch, maxBytes, base).local <==>
      exists i :: 0 <= i < |files| && files[i].0 == url && Admitted(files, fetch, maxBytes, base, i)
        && BodySize(fetch(url)) > 0
  {
    if files != [] {
      var n := |files| - 1;
      var pre := files[..n];
      var dp := Download(pre, fetch, maxBytes, base);
      DownloadedIff(pre, fetch, maxBytes, base, url);
      assert files[..n] == pre;
      assert dp.local.Keys <= Download(files, fetch, maxBytes, base).local.Keys;
      if url in dp.local {
        var i :| 0 <= i < |pre| && pre[i].0 == url && Admitted(pre, fetch, maxBytes, base, i) && BodySize(fetch(url)) > 0;
        AdmittedInPrefix(files, fetch, maxBytes, base, n, i);
      } else {
        forall i | 0 <= i < n && files[i].0 == url && BodySize(fetch(url)) > 0
          ensures !Admitted(files, fetch, maxBytes, base, i)
        {
          AdmittedInPrefix(files, fetch, maxBytes, base, n, i);
        }
      }
    }
  }

  /** Whether a file was started does not depend on the files after it. */
  lemma AdmittedInPrefix(files: seq<(string, string)>, fetch: string -> Fetch, maxBytes: nat, base: string, n: nat, i: nat)
    requires i <= n <= |files|
    ensures files[..n][i..] == files[i..n]
    ensures Admitted(files[..n], fetch, maxBytes, base, i) == Admitted(files, fetch, maxBytes, base, i)
  {
    assert files[..n][..i] == files[..i];
  }

  /** A linked url points at the path of the last file with that url. */
  lemma {:induction false} LinkedPath(files: seq<(string, string)>, fetch: string -> Fetch, maxBytes: nat, base: string, i: nat)
    requires i < |files|
    requires forall j :: i < j < |files| ==> files[j].0 != files[i].0
    requires Admitted(files, fetch, maxBytes, base, i) && BodySize(fetch(files[i].0)) > 0
    ensures var d := Download(files, fetch, maxBytes, base);
      files[i].0 in d.local && d.local[files[i].0] == base + files[i].1
    decreases |files|
  {
    var n := |files| - 1;
    var pre := files[..n];
    if i < n {
      assert pre[..i] == files[..i];
      LinkedPath(pre, fetch, maxBytes, base, i);
    } else {
      assert pre == files[..i];
    }
  }

  /** Far below the quota every non-empty body is downloaded. */
  lemma UnderQuotaAllAdmitted(files: seq<(string, string)>, fetch: string -> Fetch, maxBytes: nat, base: string, cap: nat, i: nat)
    requires forall u :: BodySize(fetch(u)) <= cap
    requires |files| * cap < maxBytes && i < |files|
    ensures Admitted(files, fetch, maxBytes, base, i)
  {
    TotalBound(files[..i], fetch, maxBytes, base, cap);
    MulMono(i, |files|, cap);
  }

  lemma MulMono(a: nat, b: nat, c: nat)
    requires a <= b
    ensures a * c <= b * c
  {
  }

  /** Corrected: each duplicate is linked to its target's stored file as
      downloaded, when it has one. */
  function ResolveDups(local: map<string, string>, dups: map<string, string>): (r: map<string, string>)
    ensures forall u :: u in r <==> u in local || (u in dups && dups[u] in local)
    ensures forall u :: u in dups && dups[u] in local ==> r[u] == local[dups[u]]
    ensures forall u :: u in local && (u !in dups || dups[u] !in local) ==> r[u] == local[u]
  {
    local + map u | u in dups && dups[u] in local :: local[dups[u]]
  }

  /** One pass of the resolution loop: `d` takes its target's current
      link, when the target has one. */
  function ResolveOne(m: map<string, string>, d: string, dups: map<string, string>): (r: map<string, string>)
    ensures r.Keys == m.Keys || (d in dups && dups[d] in m && r.Keys == m.Keys + {d})
    ensures d in r && d in dups && dups[d] in m ==> r[d] == m[dups[d]]
    ensures forall u :: u in m && u != d ==> r[u] == m[u]
  {
    if d in dups && dups[d] in m then m[d := m[dups[d]]] else m
  }

  /** As written: `for dup_url, first_url in duplicate_url_map.items()`
      updates `files_url_map` in place, so a target that was itself
      re-pointed earlier in the walk passes its new link on. Only
      duplicates change. */
  function ResolveInPlace(m: map<string, string>, order: seq<string>, dups: map<string, string>): (r: map<string, string>)
    ensures m.Keys <= r.Keys
    ensures forall u :: u in m && u !in dups ==> r[u] == m[u]
    decreases |order|
  {
    if order == [] then m
    else ResolveInPlace(ResolveOne(m, order[0], dups), order[1..], dups)
  }

  /** Every link the walk leaves is the link of some stored file. */
  lemma {:induction false} InPlaceLinksStored(m: map<string, string>, order: seq<string>, dups: map<string, string>, u: string)
    ensures var r := ResolveInPlace(m, order, dups);
      u in r ==> exists v :: v in m && r[u] == m[v]
    decreases |order|
  {
    if order != [] {
      var m' := ResolveOne(m, order[0], dups);
      InPlaceLinksStored(m', order[1..], dups, u);
      var r := ResolveInPlace(m, order, dups);
      if u in r {
        var v :| v in m' && r[u] == m'[v];
        if !(v in m && m'[v] == m[v]) {
          var t := dups[order[0]];
          assert t in m && m'[v] == m[t];
        }
      }
    }
  }

  /** A url the walk adds is a duplicate in the walk whose target ends up
      linked; a duplicate in the walk whose target was downloaded is
      linked. */
  lemma {:induction false} InPlaceKeys(m: map<string, string>, order: seq<string>, dups: map<string, string>, u: string)
    ensures var r := ResolveInPlace(m, order, dups);
      && (u in r && u !in m ==> u in dups && u in order && dups[u] in r)
      && (u in order && u in dups && dups[u] in m ==> u in r)
    decreases |order|
  {
    if order != [] {
      var m' := ResolveOne(m, order[0], dups);
      InPlaceKeys(m', order[1..], dups, u);
      var r := ResolveInPlace(m, order, dups);
      assert r == ResolveInPlace(m', order[1..], dups);
      if u in r && u !in m && u in m' {
        assert u == order[0];
      }
      if u in order && u in dups && dups[u] in m && u !in order[1..] {
        assert u == order[0];
      }
    }
  }

  /** A url the walk does not visit keeps its link. */
  lemma {:induction false} InPlaceUntouched(m: map<string, string>, order: seq<string>, dups: map<string, string>, u: string)
    requires u in m && u !in order
    ensures u in ResolveInPlace(m, order, dups)
    ensures ResolveInPlace(m, order, dups)[u] == m[u]
    decreases |order|
  {
    if order != [] {
      InPlaceUntouched(ResolveOne(m, order[0], dups), order[1..], dups, u);
    }
  }

  /** A downloaded duplicate whose target is neither downloaded nor visited
      keeps its own link. */
  lemma {:induction false} InPlaceStuck(m: map<string, string>, order: seq<string>, dups: map<string, string>, u: string)
    requires u in m && u in dups && dups[u] !in m && dups[u] !in order
    ensures u in ResolveInPlace(m, order, dups)
    ensures ResolveInPlace(m, order, dups)[u] == m[u]
    decreases |order|
  {
    if order != [] {
      InPlaceStuck(ResolveOne(m, order[0], dups), order[1..], dups, u);
    }
  }

  /** A duplicate whose target is downloaded and not itself visited gets
      the target's own link. */
  lemma {:induction false} InPlaceDirect(m: map<string, string>, order: seq<string>, dups: map<string, string>, u: string)
    requires u in order && u in dups && dups[u] in m && dups[u] !in order
    ensures u in ResolveInPlace(m, order, dups)
    ensures ResolveInPlace(m, order, dups)[u] == m[dups[u]]
    decreases |order|
  {
    var t := dups[u];
    var m' := ResolveOne(m, order[0], dups);
    assert t != order[0];
    if u in order[1..] {
      assert t !in order[1..];
      InPlaceDirect(m', order[1..], dups, u);
    } else {
      assert u == order[0];
      InPlaceUntouched(m', order[1..], dups, u);
    }
  }

  /** The two resolutions agree when no duplicate's target is itself a
      duplicate: the in-place walk differs only on chains. */
  lemma InPlaceWithoutChains(m: map<string, string>, order: seq<string>, dups: map<string, string>)
    requires forall u :: u in dups <==> u in order
    requires forall u :: u in dups ==> dups[u] !in order
    ensures ResolveInPlace(m, order, dups) == ResolveDups(m, dups)
  {
    var r := ResolveInPlace(m, order, dups);
    var s := ResolveDups(m, dups);
    forall u | u in r || u in s
      ensures u in r && u in s && r[u] == s[u]
    {
      InPlaceKeys(m, order, dups, u);
      if u in dups {
        assert u in order && dups[u] !in order;
        if dups[u] in m {
          InPlaceDirect(m, order, dups, u);
        } else {
          InPlaceKeys(m, order, dups, dups[u]);
          assert u in m;
          InPlaceStuck(m, order, dups, u);
        }
      }
    }
    assert r.Keys == s.Keys;
  }

  /** The walk visits exactly the recorded duplicates, each once. */
  lemma {:induction false} PlanOrder(items: seq<Item>, byFolder: bool)
    ensures var st := Plan(items, byFolder);
      (forall u :: u in st.dups <==> u in st.dupOrder) && NoDup(st.dupOrder)
    decreases |items|
  {
    if items != [] {
      PlanOrder(items[..|items| - 1], byFolder);
      var st := Plan(items[..|items| - 1], byFolder);
      var st' := Plan(items, byFolder);
      if st'.dupOrder != st.dupOrder {
        var u := items[|items| - 1].file.url;
        assert st'.dupOrder == st.dupOrder + [u] && u !in st.dupOrder;
        forall i, j | 0 <= i < j < |st'.dupOrder|
          ensures st'.dupOrder[i] != st'.dupOrder[j]
        {
          if j < |st.dupOrder| {
            assert st.dupOrder[i] != st.dupOrder[j];
          } else {
            assert st'.dupOrder[i] in st.dupOrder;
          }
        }
      }
    }
  }

  /** The chain: in chat F, "u1" then "u" share the name "n"; in chat G,
      "u" then "w" do. */
  const ChainF1 := Item("F", Shared("u1", "n", 0, ""))
  const ChainF2 := Item("F", Shared("u", "n", 0, ""))
  const ChainG1 := Item("G", Shared("u", "n", 0, ""))
  const ChainG2 := Item("G", Shared("w", "n", 0, ""))

  /** The first three chain items plan "u1" in F and "u" in G and record
      "u" as a duplicate of "u1". */
  lemma ChainPrefix(byFolder: bool)
    ensures var st := Plan([ChainF1, ChainF2, ChainG1], byFolder);
      && st.planned == [NewPlanned(ChainF1), NewPlanned(ChainG1)]
      && st.dups == map["u" := "u1"] && st.dupOrder == ["u"]
      && st.seen == {("F", "n"), ("G", "n")}
      && st.nameToUrl == map["n" := "u"] && st.keyToUrl == map[("F", "n") := "u1", ("G", "n") := "u"]
  {
    var items := [ChainF1, ChainF2, ChainG1];
    var s1 := PlanStep(NoPlan, ChainF1, byFolder);
    assert Plan(items[..1], byFolder) == s1 by {
      assert items[..1][..0] == [];
    }
    var s2 := PlanStep(s1, ChainF2, byFolder);
    assert Plan(items[..2], byFolder) == s2 by {
      assert items[..2][..1] == items[..1];
    }
    assert s2.dups == map["u" := "u1"] && s2.planned == [NewPlanned(ChainF1)];
    assert "u" !in Map(s2.planned, UrlOf) by {
      assert Map(s2.planned, UrlOf) == ["u1"];
    }
    assert items[..2] == items[..|items| - 1];
  }

  /** Either way of planning plans "u1" in F and "u" in G, records "u" as
      a duplicate of "u1" and "w" as a duplicate of "u", in that order. */
  lemma ChainPlan(byFolder: bool)
    ensures var st := Plan([ChainF1, ChainF2, ChainG1, ChainG2], byFolder);
      && st.planned == [NewPlanned(ChainF1), NewPlanned(ChainG1)]
      && st.dups == map["u" := "u1", "w" := "u"]
      && st.dupOrder == ["u", "w"]
  {
    var items := [ChainF1, ChainF2, ChainG1, ChainG2];
    ChainPrefix(byFolder);
    var s3 := Plan([ChainF1, ChainF2, ChainG1], byFolder);
    assert items[..|items| - 1] == [ChainF1, ChainF2, ChainG1];
    assert "w" !in Map(s3.planned, UrlOf) by {
      assert Map(s3.planned, UrlOf) == ["u1", "u"];
    }
  }

  /** As written, the walk re-points "u" first and "w" then copies the new
      link: "w", shared only in G, gets the link of F's file "u1", where
      the corrected resolution gives it the link of "u" as downloaded. */
  lemma ChainedDupInPlace(m: map<string, string>)
    requires "u1" in m && "u" in m
    ensures var dups := map["u" := "u1", "w" := "u"];
      && ResolveInPlace(m, ["u", "w"], dups)["w"] == m["u1"]
      && ResolveDups(m, dups)["w"] == m["u"]
  {
    var dups := map["u" := "u1", "w" := "u"];
    var m1 := ResolveOne(m, "u", dups);
    assert m1["u"] == m["u1"];
    var m2 := ResolveOne(m1, "w", dups);
    assert ["u", "w"][1..] == ["w"] && ["w"][1..] == [];
    assert ResolveInPlace(m, ["u", "w"], dups) == m2;
  }

  /** Links `r` extend the downloaded links `local` by duplicates only:
      every downloaded url keeps its link unless it is itself a duplicate. */
  predicate LinksFrom(local: map<string, string>, dups: map<string, string>, r: map<string, string>)
  {
    && (forall u :: u in local ==> u in r)
    && (forall u :: u in r ==> u in local || u in dups)
    && (forall u :: u in local && u !in dups ==> r[u] == local[u])
  }

  /** Every link of `r` is the link of some downloaded file. */
  ghost predicate LinksStored(local: map<string, string>, r: map<string, string>)
  {
    forall u :: u in r ==> exists v :: v in local && r[u] == local[v]
  }

  /** Every duplicate listed in `order` whose target was downloaded is
      linked. */
  predicate DupsLinked(local: map<string, string>, dups: map<string, string>, order: seq<string>, r: map<string, string>)
  {
    forall d :: d in order && d in dups && dups[d] in local ==> d in r
  }

  /** Every duplicate whose target was downloaded gets the target's link. */
  predicate DupsTakeTarget(local: map<string, string>, dups: map<string, string>, r: map<string, string>)
  {
    forall d :: d in dups && dups[d] in local ==> d in r && r[d] == local[dups[d]]
  }

  /** The in-place walk's links, all urls at once. */
  lemma InPlaceAll(m: map<string, string>, order: seq<string>, dups: map<string, string>)
    ensures var r := ResolveInPlace(m, order, dups);
      LinksFrom(m, dups, r) && DupsLinked(m, dups, order, r) && LinksStored(m, r)
  {
    var r := ResolveInPlace(m, order, dups);
    forall u | u in r
      ensures (u in m || u in dups) && exists v :: v in m && r[u] == m[v]
    {
      InPlaceKeys(m, order, dups, u);
      InPlaceLinksStored(m, order, dups, u);
    }
    forall d | d in order && d in dups && dups[d] in m
      ensures d in r
    {
      InPlaceKeys(m, order, dups, d);
    }
  }

  /** The file phase: nothing is linked when the exports already use the
      disk budget. Otherwise the planned files are downloaded up to the
      export quota, every downloaded file keeps its link unless its url is
      also a duplicate, every link is the link of a downloaded file, and
      the duplicates are resolved: as written (`inPlace`) by the walk over
      the duplicates in insertion order, which links each listed duplicate
      whose target was downloaded; corrected, each such duplicate takes its
      target's link as downloaded. `usedBytes` is what the exports
      directory holds; the budgets are in GiB. */
  function FilesPhase(st: PlanState, recheck: bool, inPlace: bool, usedBytes: nat, maxDiskGb: nat, maxExportGb: nat,
                      fetch: string -> Fetch, base: string): (r: map<string, string>)
    ensures DiskFull(usedBytes, maxDiskGb) ==> r == map[]
    ensures !DiskFull(usedBytes, maxDiskGb) ==>
      var local := Download(FileList(st.planned, recheck), fetch, Gib(maxExportGb), base).local;
      && LinksFrom(local, st.dups, r)
      && LinksStored(local, r)
      && (inPlace ==> DupsLinked(local, st.dups, st.dupOrder, r))
      && (!inPlace ==> DupsTakeTarget(local, st.dups, r))
  {
    if DiskFull(usedBytes, maxDiskGb) then map[]
    else
      var local := Download(FileList(st.planned, recheck), fetch, Gib(maxExportGb), base).local;
      if inPlace then
        InPlaceAll(local, st.dupOrder, st.dups);
        ResolveInPlace(local, st.dupOrder, st.dups)
      else
        ResolveDups(local, st.dups)
  }

  /** For a planned state the walk visits every duplicate, so as written
      too every duplicate whose target was downloaded gets a link. */
  lemma PlannedDupsLinked(items: seq<Item>, byFolder: bool, recheck: bool, usedBytes: nat, maxDiskGb: nat,
                          maxExportGb: nat, fetch: string -> Fetch, base: string, d: string)
    ensures var st := Plan(items, byFolder);
      var local := Download(FileList(st.planned, recheck), fetch, Gib(maxExportGb), base).local;
      !DiskFull(usedBytes, maxDiskGb) && d in st.dups && st.dups[d] in local ==>
        d in FilesPhase(st, recheck, true, usedBytes, maxDiskGb, maxExportGb, fetch, base)
  {
    PlanOrder(items, byFolder);
  }

  function Gib(n: nat): nat
  {
    n * GiB
  }

  /** The exports directory already holds the disk budget. */
  predicate DiskFull(usedBytes: nat, maxDiskGb: nat)
  {
    usedBytes >= Gib(maxDiskGb)
  }

  /** Corrected, two different urls downloaded to the export never share a
      stored file. */
  lemma LinksDistinct(planned: seq<Planned>, fetch: string -> Fetch, maxBytes: nat, base: string, u: string, v: string)
    requires NoDup(Map(planned, UrlOf))
    ensures var d := Download(FileList(planned, true), fetch, maxBytes, base);
      u in d.local && v in d.local && u != v ==> d.local[u] != d.local[v]
  {
    var rels := RelPaths(planned, true);
    var d := Download(FileList(planned, true), fetch, maxBytes, base);
    if u in d.local && v in d.local && u != v {
      var i := LinkIndex(planned, fetch, maxBytes, base, u);
      var j := LinkIndex(planned, fetch, maxBytes, base, v);
      assert i != j;
      RelPathsUnique(planned);
      if i < j { assert rels[i] != rels[j]; } else { assert rels[j] != rels[i]; }
      PrefixCancel(base, rels[i], rels[j]);
    }
  }

  lemma PrefixCancel(base: string, a: string, b: string)
    ensures base + a == base + b ==> a == b
  {
    if base + a == base + b {
      assert (base + a)[|base|..] == a;
      assert (base + b)[|base|..] == b;
    }
  }

  /** A linked url is the url of a planned file, linked to that file's path. */
  lemma LinkIndex(planned: seq<Planned>, fetch: string -> Fetch, maxBytes: nat, base: string, u: string)
      returns (i: nat)
    requires NoDup(Map(planned, UrlOf))
    requires u in Download(FileList(planned, true), fetch, maxBytes, base).local
    ensures i < |planned| && planned[i].url == u
    ensures Download(FileList(planned, true), fetch, maxBytes, base).local[u] == base + RelPaths(planned, true)[i]
  {
    var files := FileList(planned, true);
    DownloadedIff(files, fetch, maxBytes, base, u);
    var k :| 0 <= k < |files| && files[k].0 == u && Admitted(files, fetch, maxBytes, base, k) && BodySize(fetch(u)) > 0;
    i := k;
    PlannedLinkPath(planned, fetch, maxBytes, base, i, true);
  }

  lemma UrlsOnce(planned: seq<Planned>, i: nat)
    requires NoDup(Map(planned, UrlOf)) && i < |planned|
    ensures forall j :: i < j < |FileList(planned, true)| ==> FileList(planned, true)[j].0 != FileList(planned, true)[i].0
  {
    var us := Map(planned, UrlOf);
    forall j | i < j < |planned|
      ensures planned[j].url != planned[i].url
    {
      assert us[i] != us[j];
    }
  }

  /** A downloaded planned file is linked to its own path. */
  lemma PlannedLinkPath(planned: seq<Planned>, fetch: string -> Fetch, maxBytes: nat, base: string, j: nat, recheck: bool)
    requires NoDup(Map(planned, UrlOf)) && j < |planned|
    ensures var local := Download(FileList(planned, recheck), fetch, maxBytes, base).local;
      planned[j].url in local ==> local[planned[j].url] == base + RelPaths(planned, recheck)[j]
  {
    var files := FileList(planned, recheck);
    var url := planned[j].url;
    if url in Download(files, fetch, maxBytes, base).local {
      DownloadedIff(files, fetch, maxBytes, base, url);
      var k :| 0 <= k < |files| && files[k].0 == url && Admitted(files, fetch, maxBytes, base, k)
        && BodySize(fetch(url)) > 0;
      var us := Map(planned, UrlOf);
      assert us[k] == us[j];
      assert k == j;
      forall m | j < m < |files|
        ensures files[m].0 != files[j].0
      {
        assert us[j] != us[m];
      }
      LinkedPath(files, fetch, maxBytes, base, j);
    }
  }

  lemma PrefixedStartsWith(base: string, s: string, p: string)
    requires StartsWith(s, p)
    ensures StartsWith(base + s, base + p)
  {
    assert (base + s)[..|base + p|] == base + s[..|p|];
  }

  /** Corrected, a planned file that was downloaded is linked to a path in
      its own folder. */
  lemma PlannedLink(planned: seq<Planned>, fetch: string -> Fetch, maxBytes: nat, base: string, j: nat)
    requires NoDup(Map(planned, UrlOf)) && j < |planned|
    ensures var local := Download(FileList(planned, true), fetch, maxBytes, base).local;
      planned[j].url in local ==> StartsWith(local[planned[j].url], base + planned[j].folder + "/")
  {
    PlannedLinkPath(planned, fetch, maxBytes, base, j, true);
    var rels := RelPaths(planned, true);
    PrefixedStartsWith(base, rels[j], planned[j].folder + "/");
    assert base + planned[j].folder + "/" == base + (planned[j].folder + "/");
  }

  /** Corrected end to end: a duplicate that gets a link is linked to a
      file stored in its own chat's folder. */
  lemma DupLinkedInOwnFolder(items: seq<Item>, fetch: string -> Fetch, maxBytes: nat, base: string, d: string)
    requires d in Plan(items, true).dups
    ensures var st := Plan(items, true);
      var local := Download(FileList(st.planned, true), fetch, maxBytes, base).local;
      st.dups[d] in local ==>
        exists i :: 0 <= i < |items| && items[i].file.url == d
          && StartsWith(ResolveDups(local, st.dups)[d], base + items[i].folder + "/")
  {
    var st := Plan(items, true);
    var local := Download(FileList(st.planned, true), fetch, maxBytes, base).local;
    if st.dups[d] in local {
      DupTargetsSameFolder(items, d);
      var i, j :| 0 <= i < |items| && 0 <= j < |st.planned|
        && items[i].file.url == d && items[i].file.name != ""
        && st.planned[j].url == st.dups[d]
        && KeyOf(st.planned[j]) == (items[i].folder, items[i].file.name);
      PlanDeduplicates(items, true);
      PlannedLink(st.planned, fetch, maxBytes, base, j);
    }
  }

  /** A body of one byte for every file. */
  function OneByte(url: string): Fetch
  {
    Payload(1)
  }

  /** As written, the colliding paths reach the links: the first file and
      the third nameless file of the same chat are both linked to the one
      stored file "F/file_2", which the later download overwrites. */
  lemma CollidingLinks(base: string)
    ensures var files := FileList(Plan([ItemA, ItemB, ItemC], false).planned, false);
      var local := Download(files, OneByte, 4, base).local;
      && "a" in local && "c" in local
      && local["a"] == local["c"] == base + "F/file_2"
  {
    CollidingFiles();
    SharedLink(FileList(Plan([ItemA, ItemB, ItemC], false).planned, false), base);
  }

  /** Three one-byte files, the first and last stored at the same path,
      are all downloaded, and the two urls get the same link. */
  lemma SharedLink(files: seq<(string, string)>, base: string)
    requires |files| == 3 && files[0] == ("a", "F/file_2") && files[1].0 == "b" && files[2] == ("c", "F/file_2")
    ensures var local := Download(files, OneByte, 4, base).local;
      && "a" in local && "c" in local
      && local["a"] == local["c"] == base + "F/file_2"
  {
    UnderQuotaAllAdmitted(files, OneByte, 4, base, 1, 0);
    UnderQuotaAllAdmitted(files, OneByte, 4, base, 1, 2);
    LinkedPath(files, OneByte, 4, base, 0);
    LinkedPath(files, OneByte, 4, base, 2);
  }

  lemma CollidingFiles()
    ensures var files := FileList(Plan([ItemA, ItemB, ItemC], false).planned, false);
      |files| == 3 && files[0] == ("a", "F/file_2") && files[1].0 == "b" && files[2] == ("c", "F/file_2")
  {
    NamelessPlanned(false);
    NamelessPaths(false);
  }

  /** Corrected, the same downloads give the three files three links. */
  lemma DistinctLinks(base: string)
    ensures var files := FileList(Plan([ItemA, ItemB, ItemC], true).planned, true);
      var local := Download(files, OneByte, 4, base).local;
      && "a" in local && "c" in local && local["a"] != local["c"]
  {
    var planned := Plan([ItemA, ItemB, ItemC], true).planned;
    NamelessPlanned(true);
    var files := FileList(planned, true);
    assert files[0].0 == "a" && files[1].0 == "b" && files[2].0 == "c";
    UnderQuotaAllAdmitted(files, OneByte, 4, base, 1, 0);
    UnderQuotaAllAdmitted(files, OneByte, 4, base, 1, 2);
    LinkedPath(files, OneByte, 4, base, 0);
    LinkedPath(files, OneByte, 4, base, 2);
    PlanDeduplicates([ItemA, ItemB, ItemC], true);
    LinksDistinct(planned, OneByte, 4, base, "a", "c");
  }
}
