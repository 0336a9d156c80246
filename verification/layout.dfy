/**
 `clean_extracted_files`: the three steps that normalise an extracted
 archive in place. The macOS metadata folder is removed, a lone wrapper
 directory is unwrapped, and the weights and index entries take the
 model's name. Each `os.listdir` snapshot the code takes is an explicit
 listing order.
 */
module Layout {
  import opened Results
  import opened Strings
  import opened Tree
  import opened Artifacts

  /** The resource-fork folder macOS archivers add. */
  const Metadata := "__MACOSX"

  /** `shutil.rmtree` raises when the metadata name is a regular file rather than a folder. */
  datatype CleanError = MetadataNotADirectory

  // ---------------------------------------------------------------- step 1

  /** Remove `__MACOSX` and everything under it, if it exists. */
  function StripMetadata(d: Folder): (r: Result<Folder, CleanError>)
    ensures r.Err? <==> Metadata in d && d[Metadata].File?
    ensures r.Ok? ==> r.value.Keys == d.Keys - {Metadata}
    ensures r.Ok? ==> forall k :: k in r.value ==> r.value[k] == d[k]
    ensures r.Ok? ==> r.value == d - {Metadata}
  {
    if Metadata in d then
      match d[Metadata]
      case File(_) => Err(MetadataNotADirectory)
      case Dir(_) => Ok(d - {Metadata})
    else
      assert d == d - {Metadata};
      Ok(d)
  }

  // ---------------------------------------------------------------- step 2

  /** `w` is the one directory at the top level of `d`; files do not count. */
  ghost predicate OnlyDir(d: Folder, w: string) {
    w in d && d[w].Dir? && forall k :: k in d && d[k].Dir? ==> k == w
  }

  /** The directories among `order`, in listing order (the `subfolders` list). */
  function Subfolders(order: seq<string>, d: Folder): (r: seq<string>)
    requires forall i :: 0 <= i < |order| ==> order[i] in d
    requires Distinct(order)
    ensures forall n :: n in r <==> n in order && d[n].Dir?
    ensures Distinct(r)
    decreases |order|
  {
    if |order| == 0 then []
    else
      DistinctTail(order);
      var rest := Subfolders(order[1..], d);
      if d[order[0]].Dir? then [order[0]] + rest else rest
  }

  /**
   The moves of the hoist never land on an existing name: the wrapper's
   children are named unlike every top-level entry, the wrapper included.
   */
  ghost predicate HoistSafe(d: Folder) {
    forall w :: OnlyDir(d, w) ==> d[w].children.Keys !! d.Keys
  }

  /** A lone directory is the only one the listing's directory scan finds. */
  lemma OnlyDirIsSole(order: seq<string>, d: Folder, w: string)
    requires IsListing(order, d)
    requires OnlyDir(d, w)
    ensures Subfolders(order, d) == [w]
  {
    var subs := Subfolders(order, d);
    assert w in order;
    assert w in subs;
    assert forall i :: 0 <= i < |subs| ==> subs[i] == w by {
      forall i | 0 <= i < |subs| ensures subs[i] == w {
        assert subs[i] in subs;
      }
    }
    assert (set n | n in subs) == {w};
    DistinctCard(subs);
  }

  /**
   With exactly one directory at the top level, its children move up one
   level and the directory goes away; with none or several, nothing changes.
   */
  function Hoist(d: Folder, order: seq<string>): (r: Folder)
    requires IsListing(order, d)
    requires HoistSafe(d)
    ensures forall w :: OnlyDir(d, w) ==>
              && w !in r
              && r.Keys == (d.Keys - {w}) + d[w].children.Keys
              && (forall k :: k in d[w].children ==> r[k] == d[w].children[k])
              && (forall k :: k in d && k != w ==> r[k] == d[k])
    ensures (forall w :: !OnlyDir(d, w)) ==> r == d
  {
    var subs := Subfolders(order, d);
    assert forall w :: OnlyDir(d, w) ==> subs == [w] by {
      forall w | OnlyDir(d, w) ensures subs == [w] {
        OnlyDirIsSole(order, d, w);
      }
    }
    if |subs| == 1 then
      var w := subs[0];
      assert OnlyDir(d, w) by {
        assert w in subs;
        forall k | k in d && d[k].Dir? ensures k == w {
          assert k in order;
          assert k in subs;
        }
      }
      (d - {w}) + d[w].children
    else
      d
  }

  // ---------------------------------------------------------------- step 3

  /**
   The name an entry is renamed to: any name containing `.pth` takes the
   weights name, otherwise any name containing `.index` takes the index
   name; other entries are left alone.
   */
  function Target(name: string, model: string): Option<string> {
    if Contains(name, WeightsMarker) then Some(model + WeightsMarker)
    else if Contains(name, IndexMarker) then Some(model + IndexMarker)
    else None
  }

  /** One iteration of the rename loop: `os.rename` only when the destination does not exist. */
  function RenameOne(d: Folder, item: string, model: string): Folder {
    match Target(item, model)
    case None => d
    case Some(dest) =>
      if item in d && dest !in d then (d - {item})[dest := d[item]] else d
  }

  /** The rename loop over the listing snapshot `pending`, in order. */
  function RenameAll(d: Folder, pending: seq<string>, model: string): Folder
    decreases |pending|
  {
    if |pending| == 0 then d
    else RenameAll(RenameOne(d, pending[0], model), pending[1..], model)
  }

  /** Entry `k` of `d` is in `r` unchanged, or was moved under its target name without taking an existing entry's place. */
  ghost predicate Moved(d: Folder, r: Folder, k: string, model: string)
    requires k in d
  {
    || (k in r && r[k] == d[k])
    || (Target(k, model).Some? && Target(k, model).value != k
        && Target(k, model).value in r && r[Target(k, model).value] == d[k])
  }

  /** Every entry of `d` whose target name is taken already has it: a rename pass has nothing left to do. */
  ghost predicate Settled(d: Folder, model: string) {
    forall k :: k in d && Target(k, model).Some? ==> Target(k, model).value in d
  }

  /**
   Entry `order[i]` takes its target name in the rename pass over `order`:
   it has a target, that name is not in `d`, and no earlier entry in the
   listing has the same target (the earliest one gets it).
   */
  predicate TakesTarget(d: Folder, order: seq<string>, model: string, i: nat)
    requires i < |order|
  {
    && Target(order[i], model).Some?
    && Target(order[i], model).value !in d
    && forall j :: 0 <= j < i ==> Target(order[j], model) != Target(order[i], model)
  }

  /**
   `r` is what the rename pass over the listing `order` makes of `d`.
   Nothing is overwritten, so the number of entries is kept. Every entry
   is where it was or under its target name, and entries without a target
   stay put. Every new name is the target of an entry of `d`, and the
   first entry in listing order whose target name is free takes it. Names
   other than the canonical two are never written. An entry that takes its
   target leaves its name, and one that does not stays with its content,
   except where `<model>.index` is involved: with `.pth` in the model name
   that entry can itself be renamed and its name refilled. With a model
   name free of `.pth`, an entry leaves its name exactly when it takes its
   target, and an entry that stays keeps its content.
   */
  ghost predicate RenamedFrom(d: Folder, order: seq<string>, model: string, r: Folder) {
    && IsListing(order, d)
    && |r| == |d|
    && (forall k :: k in d ==> Moved(d, r, k, model))
    && (forall k :: k in d && Target(k, model).None? ==> k in r && r[k] == d[k])
    && (forall k :: k in r && k !in d ==> exists j :: j in d && Target(j, model) == Some(k))
    && (forall i :: 0 <= i < |order| && TakesTarget(d, order, model, i) ==>
          Target(order[i], model).value in r && r[Target(order[i], model).value] == d[order[i]])
    && (forall k :: k in d && k in r && k != model + WeightsMarker && k != model + IndexMarker ==> r[k] == d[k])
    && (forall i :: 0 <= i < |order| && TakesTarget(d, order, model, i) && order[i] != model + IndexMarker ==>
          order[i] !in r)
    && (forall i ::
          0 <= i < |order| && !TakesTarget(d, order, model, i) && Target(order[i], model) != Some(model + IndexMarker) ==>
            order[i] in r && r[order[i]] == d[order[i]])
    && (!Contains(model, WeightsMarker) ==>
          forall i :: 0 <= i < |order| ==>
            && (order[i] in r <==> !TakesTarget(d, order, model, i))
            && (order[i] in r ==> r[order[i]] == d[order[i]]))
  }

  /** A name the loop has already passed is never touched again. */
  lemma {:induction false} RenamePreserves(d: Folder, pending: seq<string>, model: string, k: string)
    requires k in d && k !in pending
    ensures k in RenameAll(d, pending, model) && RenameAll(d, pending, model)[k] == d[k]
    decreases |pending|
  {
    if |pending| > 0 {
      var next := RenameOne(d, pending[0], model);
      assert k in next && next[k] == d[k];
      assert k !in pending[1..];
      RenamePreserves(next, pending[1..], model, k);
    }
  }

  /** One rename keeps the pending names present and the number of entries fixed. */
  lemma RenameOneFacts(d: Folder, pending: seq<string>, model: string)
    requires |pending| > 0 && Distinct(pending)
    requires forall i :: 0 <= i < |pending| ==> pending[i] in d
    ensures var next := RenameOne(d, pending[0], model);
            && |next| == |d|
            && (forall i :: 0 <= i < |pending| - 1 ==> pending[1..][i] in next)
            && Distinct(pending[1..])
            && (forall k :: k in next && k != pending[0] ==> k in d || k == Target(pending[0], model).value)
  {
    var item := pending[0];
    DistinctTail(pending);
    match Target(item, model)
    case None =>
    case Some(dest) =>
      if dest !in d {
        var removed := d - {item};
        assert removed.Keys == d.Keys - {item};
        assert |removed.Keys| == |d.Keys| - 1;
        assert removed[dest := d[item]].Keys == removed.Keys + {dest};
      }
  }

  /** The loop moves each pending entry at most once and never loses one. */
  lemma {:induction false} RenameAllMoves(d: Folder, pending: seq<string>, model: string)
    requires Distinct(pending)
    requires forall i :: 0 <= i < |pending| ==> pending[i] in d
    ensures |RenameAll(d, pending, model)| == |d|
    ensures forall i :: 0 <= i < |pending| ==> Moved(d, RenameAll(d, pending, model), pending[i], model)
    ensures forall k :: k in RenameAll(d, pending, model) ==>
              k in d || k == model + WeightsMarker || k == model + IndexMarker
    decreases |pending|
  {
    if |pending| > 0 {
      var item := pending[0];
      var next := RenameOne(d, item, model);
      var r := RenameAll(d, pending, model);
      RenameOneFacts(d, pending, model);
      RenameAllMoves(next, pending[1..], model);
      assert r == RenameAll(next, pending[1..], model);
      forall i | 0 <= i < |pending| ensures Moved(d, r, pending[i], model) {
        if i == 0 {
          if item in next {
            assert next[item] == d[item];
            RenamePreserves(next, pending[1..], model, item);
          } else {
            var dest := Target(item, model).value;
            assert dest !in d;
            assert dest !in pending[1..];
            RenamePreserves(next, pending[1..], model, dest);
          }
        } else {
          var k := pending[i];
          assert k == pending[1..][i - 1];
          assert k != item;
          assert next[k] == d[k];
          assert Moved(next, r, k, model);
        }
      }
    }
  }

  /** The weights name is its own target, whatever the model name. */
  lemma WeightsNameIsFixed(model: string)
    ensures Target(model + WeightsMarker, model) == Some(model + WeightsMarker)
  {
    assert EndsWith(model + WeightsMarker, WeightsMarker) by {
      assert (model + WeightsMarker)[|model|..] == WeightsMarker;
    }
    EndsWithContains(model + WeightsMarker, WeightsMarker);
  }

  /** The two canonical names are their own targets, as long as the model name holds no `.pth`. */
  lemma CanonicalNamesAreFixed(model: string)
    requires !Contains(model, WeightsMarker)
    ensures Target(model + WeightsMarker, model) == Some(model + WeightsMarker)
    ensures Target(model + IndexMarker, model) == Some(model + IndexMarker)
  {
    WeightsNameIsFixed(model);
    assert EndsWith(model + IndexMarker, IndexMarker) by {
      assert (model + IndexMarker)[|model|..] == IndexMarker;
    }
    EndsWithContains(model + IndexMarker, IndexMarker);
    NoOccurrenceAcross(model, IndexMarker, WeightsMarker);
  }

  /**
   With a model name free of `.pth`, once the loop has passed every entry,
   each entry that would be renamed finds its target name taken.
   */
  lemma {:induction false} RenameAllSettles(d: Folder, pending: seq<string>, model: string)
    requires !Contains(model, WeightsMarker)
    requires Distinct(pending)
    requires forall i :: 0 <= i < |pending| ==> pending[i] in d
    requires forall k :: k in d && k !in pending && Target(k, model).Some? ==> Target(k, model).value in d
    ensures Settled(RenameAll(d, pending, model), model)
    decreases |pending|
  {
    if |pending| == 0 {
      return;
    }
    CanonicalNamesAreFixed(model);
    var item := pending[0];
    var next := RenameOne(d, item, model);
    RenameOneFacts(d, pending, model);
    forall k | k in next && k !in pending[1..] && Target(k, model).Some?
      ensures Target(k, model).value in next
    {
      var t := Target(k, model).value;
      if k == item {
        assert t in d;
        assert next == d;
      } else if k in d {
        assert k !in pending;
        assert t in d;
        if t == item {
          assert Target(item, model) == Some(item);
          assert next == d;
        }
      } else {
        assert Target(item, model).Some?;
        assert k == Target(item, model).value;
        assert t == k;
      }
    }
    RenameAllSettles(next, pending[1..], model);
  }

  /** A settled folder is left as it is by any rename pass. */
  lemma {:induction false} SettledIsFixpoint(d: Folder, pending: seq<string>, model: string)
    requires Settled(d, model)
    ensures RenameAll(d, pending, model) == d
    decreases |pending|
  {
    if |pending| > 0 {
      assert RenameOne(d, pending[0], model) == d;
      SettledIsFixpoint(d, pending[1..], model);
    }
  }

  /**
   The rename step run over a listing of `d`, as `RenamedFrom` describes
   it. Only the two canonical names are new, an existing canonical weights
   entry is kept, and every target name that was free ends up taken,
   whatever the model name. The model name holds no path separator, so
   both destinations lie directly in the folder.
   */
  function RenameArtifacts(d: Folder, order: seq<string>, model: string): (r: Folder)
    requires PathSep !in model
    requires IsListing(order, d)
    ensures RenamedFrom(d, order, model, r)
    ensures forall k :: k in r ==> k in d || k == model + WeightsMarker || k == model + IndexMarker
    ensures model + WeightsMarker in d ==>
              model + WeightsMarker in r && r[model + WeightsMarker] == d[model + WeightsMarker]
    ensures !Contains(model, WeightsMarker) ==> Settled(r, model)
    ensures forall k :: k in d && Target(k, model).Some? && Target(k, model).value !in d ==>
              Target(k, model).value in r
  {
    RenameAllMoves(d, order, model);
    RenameAllRenamedFrom(d, order, model);
    var r := RenameAll(d, order, model);
    forall k | k in d && Target(k, model).Some? && Target(k, model).value !in d
      ensures Target(k, model).value in r
    {
      TakenTargetFilled(d, order, model, k);
    }
    assert !Contains(model, WeightsMarker) ==> Settled(r, model) by {
      if !Contains(model, WeightsMarker) {
        RenameAllSettles(d, order, model);
      }
    }
    WeightsNameIsFixed(model);
    r
  }

  /** The loop over a listing of `d` yields a folder renamed from `d` in the sense of `RenamedFrom`. */
  lemma RenameAllRenamedFrom(d: Folder, order: seq<string>, model: string)
    requires IsListing(order, d)
    ensures RenamedFrom(d, order, model, RenameAll(d, order, model))
  {
    var r := RenameAll(d, order, model);
    RenameAllMoves(d, order, model);
    forall k | k in d ensures Moved(d, r, k, model) {
      var i :| 0 <= i < |order| && order[i] == k;
    }
    forall k | k in r && k !in d ensures exists j :: j in d && Target(j, model) == Some(k) {
      NewNamesAreTargets(d, order, model, k);
      var j :| 0 <= j < |order| && Target(order[j], model) == Some(k);
      assert order[j] in d;
    }
    forall i | 0 <= i < |order| && TakesTarget(d, order, model, i)
      ensures Target(order[i], model).value in r && r[Target(order[i], model).value] == d[order[i]]
    {
      FirstTargetWins(d, order, model, Target(order[i], model).value, i);
    }
    forall k | k in d && k in r && k != model + WeightsMarker && k != model + IndexMarker
      ensures r[k] == d[k]
    {
      OtherNamesUnchanged(d, order, model, k);
    }
    forall i | 0 <= i < |order|
      ensures TakesTarget(d, order, model, i) && order[i] != model + IndexMarker ==> order[i] !in r
      ensures !TakesTarget(d, order, model, i) && Target(order[i], model) != Some(model + IndexMarker) ==>
                order[i] in r && r[order[i]] == d[order[i]]
    {
      RenameRuleAnyModel(d, order, model, i);
    }
    if !Contains(model, WeightsMarker) {
      forall i | 0 <= i < |order|
        ensures order[i] in r <==> !TakesTarget(d, order, model, i)
        ensures order[i] in r ==> r[order[i]] == d[order[i]]
      {
        RenameRule(d, order, model, i);
      }
    }
  }

  /** Running the rename step a second time, over any listing, changes nothing when the model name holds no `.pth`. */
  lemma RenameIdempotent(d: Folder, order: seq<string>, again: seq<string>, model: string)
    requires PathSep !in model
    requires !Contains(model, WeightsMarker)
    requires IsListing(order, d)
    requires IsListing(again, RenameArtifacts(d, order, model))
    ensures RenameArtifacts(RenameArtifacts(d, order, model), again, model) == RenameArtifacts(d, order, model)
  {
    SettledIsFixpoint(RenameArtifacts(d, order, model), again, model);
  }

  /**
   The condition of `RenameIdempotent` is needed: with a model name holding
   `.pth`, a lone index entry is first renamed to `<model>.index`, and a
   second pass renames that to `<model>.pth`.
   */
  lemma RenameNotIdempotentForWeightsModel(model: string, name: string, e: Entry)
    requires PathSep !in model
    requires Contains(model, WeightsMarker)
    requires Contains(name, IndexMarker) && !Contains(name, WeightsMarker)
    ensures RenameArtifacts(map[name := e], [name], model) == map[model + IndexMarker := e]
    ensures RenameArtifacts(map[model + IndexMarker := e], [model + IndexMarker], model) == map[model + WeightsMarker := e]
  {
    var idx := model + IndexMarker;
    var w := model + WeightsMarker;
    ContainsInPrefix(model, IndexMarker, WeightsMarker);
    assert idx != name;
    assert Target(name, model) == Some(idx);
    assert RenameOne(map[name := e], name, model) == map[idx := e] by {
      assert (map[name := e] - {name})[idx := e] == map[idx := e];
    }
    assert RenameAll(map[name := e], [name], model) == RenameAll(map[idx := e], [], model);
    assert Target(idx, model) == Some(w);
    assert idx != w by {
      assert idx[|model|..] != w[|model|..];
    }
    assert RenameOne(map[idx := e], idx, model) == map[w := e] by {
      assert (map[idx := e] - {idx})[w := e] == map[w := e];
    }
    assert RenameAll(map[idx := e], [idx], model) == RenameAll(map[w := e], [], model);
  }

  /** The two canonical names differ, and neither is the metadata folder's name. */
  lemma CanonicalNamesDiffer(model: string)
    ensures model + WeightsMarker != model + IndexMarker
    ensures Metadata != model + WeightsMarker && Metadata != model + IndexMarker
  {
    var w, x := model + WeightsMarker, model + IndexMarker;
    assert w[|w| - 1] == 'h' && x[|x| - 1] == 'x' && Metadata[|Metadata| - 1] == 'X';
  }

  /**
   The first entry in listing order whose target is the free name `t` is
   renamed to `t`, and `t` keeps that entry's content to the end.
   */
  lemma {:induction false} FirstTargetWins(d: Folder, pending: seq<string>, model: string, t: string, i: nat)
    requires Distinct(pending)
    requires forall j :: 0 <= j < |pending| ==> pending[j] in d
    requires t !in d
    requires i < |pending| && Target(pending[i], model) == Some(t)
    requires forall j :: 0 <= j < i ==> Target(pending[j], model) != Some(t)
    ensures t in RenameAll(d, pending, model)
    ensures RenameAll(d, pending, model)[t] == d[pending[i]]
    decreases i
  {
    var item := pending[0];
    var next := RenameOne(d, item, model);
    var rest := pending[1..];
    assert RenameAll(d, pending, model) == RenameAll(next, rest, model);
    assert t !in rest by {
      forall j | 0 <= j < |rest| ensures rest[j] != t {
        assert rest[j] == pending[j + 1];
      }
    }
    if i == 0 {
      assert next == (d - {item})[t := d[item]];
      RenamePreserves(next, rest, model, t);
    } else {
      DistinctTail(pending);
      assert Target(item, model) != Some(t);
      assert t !in next;
      assert rest[i - 1] == pending[i];
      assert next[pending[i]] == d[pending[i]];
      forall j | 0 <= j < |rest| ensures rest[j] in next {
        assert rest[j] == pending[j + 1];
      }
      forall j | 0 <= j < i - 1 ensures Target(rest[j], model) != Some(t) {
        assert rest[j] == pending[j + 1];
      }
      FirstTargetWins(next, rest, model, t, i - 1);
    }
  }

  /** An entry whose target name is free guarantees that the name is taken once the loop is over. */
  lemma {:induction false} TakenTargetFilled(d: Folder, pending: seq<string>, model: string, k: string)
    requires Distinct(pending)
    requires forall j :: 0 <= j < |pending| ==> pending[j] in d
    requires k in pending && Target(k, model).Some? && Target(k, model).value !in d
    ensures Target(k, model).value in RenameAll(d, pending, model)
    decreases |pending|
  {
    var t := Target(k, model).value;
    var item := pending[0];
    var next := RenameOne(d, item, model);
    RenameOneFacts(d, pending, model);
    assert t !in pending[1..];
    if Target(item, model) == Some(t) {
      assert next == (d - {item})[t := d[item]];
      RenamePreserves(next, pending[1..], model, t);
    } else {
      assert pending == [item] + pending[1..];
      assert k in pending[1..];
      assert t !in next;
      TakenTargetFilled(next, pending[1..], model, k);
    }
  }

  /** Every name the loop adds is the target of one of the entries it visits. */
  lemma {:induction false} NewNamesAreTargets(d: Folder, pending: seq<string>, model: string, k: string)
    requires k in RenameAll(d, pending, model) && k !in d
    ensures exists j :: 0 <= j < |pending| && Target(pending[j], model) == Some(k)
    decreases |pending|
  {
    if |pending| > 0 {
      var item := pending[0];
      var next := RenameOne(d, item, model);
      assert RenameAll(d, pending, model) == RenameAll(next, pending[1..], model);
      if k in next {
        assert Target(pending[0], model) == Some(k);
      } else {
        NewNamesAreTargets(next, pending[1..], model, k);
        var j :| 0 <= j < |pending| - 1 && Target(pending[1..][j], model) == Some(k);
        assert Target(pending[j + 1], model) == Some(k);
      }
    }
  }

  /**
   With a model name free of `.pth`, a canonical name is present after one
   rename exactly when it was present before or the renamed entry targets it.
   */
  lemma CanonicalAfterOne(d: Folder, item: string, model: string, t: string)
    requires !Contains(model, WeightsMarker)
    requires item in d
    requires t == model + WeightsMarker || t == model + IndexMarker
    ensures t in RenameOne(d, item, model) <==> t in d || Target(item, model) == Some(t)
  {
    CanonicalNamesAreFixed(model);
  }

  /**
   With a model name free of `.pth`, the entry at listing position `i`
   leaves its name exactly when it takes its target; otherwise it keeps
   its name and its content to the end of the loop.
   */
  lemma {:induction false} RenameRule(d: Folder, pending: seq<string>, model: string, i: nat)
    requires !Contains(model, WeightsMarker)
    requires Distinct(pending)
    requires forall j :: 0 <= j < |pending| ==> pending[j] in d
    requires i < |pending|
    ensures pending[i] in RenameAll(d, pending, model) <==> !TakesTarget(d, pending, model, i)
    ensures pending[i] in RenameAll(d, pending, model) ==>
              RenameAll(d, pending, model)[pending[i]] == d[pending[i]]
    decreases i
  {
    var item := pending[0];
    var next := RenameOne(d, item, model);
    var rest := pending[1..];
    assert RenameAll(d, pending, model) == RenameAll(next, rest, model);
    RenameOneFacts(d, pending, model);
    CanonicalNamesAreFixed(model);
    if i == 0 {
      if TakesTarget(d, pending, model, 0) {
        var t := Target(item, model).value;
        assert item !in next;
        assert item != model + WeightsMarker && item != model + IndexMarker;
        RenameAllMoves(next, rest, model);
      } else {
        assert next == d;
        RenamePreserves(next, rest, model, item);
      }
    } else {
      var x := pending[i];
      assert x == rest[i - 1];
      assert x in next && next[x] == d[x];
      forall j | 0 <= j < i - 1 ensures rest[j] == pending[j + 1] {
      }
      if Target(x, model).Some? {
        CanonicalAfterOne(d, item, model, Target(x, model).value);
      }
      assert TakesTarget(d, pending, model, i) <==> TakesTarget(next, rest, model, i - 1);
      RenameRule(next, rest, model, i - 1);
    }
  }

  /** A name other than the two canonical ones is never written: if it is still there after the loop, it holds what it held before. */
  lemma {:induction false} OtherNamesUnchanged(d: Folder, pending: seq<string>, model: string, k: string)
    requires Distinct(pending)
    requires forall j :: 0 <= j < |pending| ==> pending[j] in d
    requires k != model + WeightsMarker && k != model + IndexMarker
    requires k in d && k in RenameAll(d, pending, model)
    ensures RenameAll(d, pending, model)[k] == d[k]
    decreases |pending|
  {
    if |pending| > 0 {
      var next := RenameOne(d, pending[0], model);
      RenameOneFacts(d, pending, model);
      assert RenameAll(d, pending, model) == RenameAll(next, pending[1..], model);
      RenameAllMoves(next, pending[1..], model);
      assert k in next && next[k] == d[k];
      OtherNamesUnchanged(next, pending[1..], model, k);
    }
  }

  /**
   The stay-or-leave rule for any model name, short of the case where
   `<model>.index` is renamed away and its name refilled: an entry that
   takes its target leaves its name unless it is `<model>.index` itself,
   and an entry that does not take its target stays with its content
   unless its target is `<model>.index`.
   */
  lemma {:induction false} RenameRuleAnyModel(d: Folder, pending: seq<string>, model: string, i: nat)
    requires Distinct(pending)
    requires forall j :: 0 <= j < |pending| ==> pending[j] in d
    requires i < |pending|
    ensures TakesTarget(d, pending, model, i) && pending[i] != model + IndexMarker ==>
              pending[i] !in RenameAll(d, pending, model)
    ensures !TakesTarget(d, pending, model, i) && Target(pending[i], model) != Some(model + IndexMarker) ==>
              pending[i] in RenameAll(d, pending, model)
              && RenameAll(d, pending, model)[pending[i]] == d[pending[i]]
    decreases i
  {
    var item := pending[0];
    var next := RenameOne(d, item, model);
    var rest := pending[1..];
    assert RenameAll(d, pending, model) == RenameAll(next, rest, model);
    RenameOneFacts(d, pending, model);
    WeightsNameIsFixed(model);
    if i == 0 {
      if TakesTarget(d, pending, model, 0) {
        assert item !in next;
        if item != model + IndexMarker {
          assert item != model + WeightsMarker;
          RenameAllMoves(next, rest, model);
        }
      } else {
        assert next == d;
        RenamePreserves(next, rest, model, item);
      }
    } else {
      var x := pending[i];
      assert x == rest[i - 1];
      assert x in next && next[x] == d[x];
      forall j | 0 <= j < i - 1 ensures rest[j] == pending[j + 1] {
      }
      if TakesTarget(d, pending, model, i) {
        assert TakesTarget(next, rest, model, i - 1);
      }
      if !TakesTarget(d, pending, model, i) && Target(x, model).Some? && Target(x, model) != Some(model + IndexMarker) {
        var t := Target(x, model).value;
        assert t == model + WeightsMarker;
        if t in d || Target(item, model) == Some(t) {
          assert t in next;
        }
        assert !TakesTarget(next, rest, model, i - 1);
      }
      RenameRuleAnyModel(next, rest, model, i - 1);
    }
  }

  /**
   The first entry in listing order whose name holds `.pth` takes the
   weights name, provided that name was free.
   */
  lemma FirstWeightsWins(d: Folder, pending: seq<string>, model: string, i: nat)
    requires Distinct(pending)
    requires forall j :: 0 <= j < |pending| ==> pending[j] in d
    requires model + WeightsMarker !in d
    requires i < |pending| && Contains(pending[i], WeightsMarker)
    requires forall j :: 0 <= j < i ==> !Contains(pending[j], WeightsMarker)
    ensures model + WeightsMarker in RenameAll(d, pending, model)
    ensures RenameAll(d, pending, model)[model + WeightsMarker] == d[pending[i]]
  {
    CanonicalNamesDiffer(model);
    FirstTargetWins(d, pending, model, model + WeightsMarker, i);
  }

  /**
   The first entry in listing order whose name holds `.index` but not
   `.pth` takes the index name, provided that name was free.
   */
  lemma FirstIndexWins(d: Folder, pending: seq<string>, model: string, i: nat)
    requires Distinct(pending)
    requires forall j :: 0 <= j < |pending| ==> pending[j] in d
    requires model + IndexMarker !in d
    requires i < |pending| && Contains(pending[i], IndexMarker) && !Contains(pending[i], WeightsMarker)
    requires forall j :: 0 <= j < i ==> !Contains(pending[j], IndexMarker) || Contains(pending[j], WeightsMarker)
    ensures model + IndexMarker in RenameAll(d, pending, model)
    ensures RenameAll(d, pending, model)[model + IndexMarker] == d[pending[i]]
  {
    CanonicalNamesDiffer(model);
    FirstTargetWins(d, pending, model, model + IndexMarker, i);
  }

  // ---------------------------------------------------------------- all three

  /** What the file system guarantees between the steps, plus the hoist's no-collision condition. */
  ghost predicate CleanInputs(d: Folder, dirOrder: seq<string>, renameOrder: seq<string>) {
    var s := StripMetadata(d);
    s.Ok? ==>
      && IsListing(dirOrder, s.value)
      && HoistSafe(s.value)
      && IsListing(renameOrder, Hoist(s.value, dirOrder))
  }

  /**
   The folder as the cleaning leaves it before the rename step, stated
   without listings: `__MACOSX` is gone and, when exactly one directory
   is left at the top level, that directory is replaced by its children.
   */
  ghost function Unwrapped(d: Folder): (u: Folder)
    ensures forall w :: OnlyDir(d - {Metadata}, w) ==>
              && u.Keys == (d.Keys - {Metadata, w}) + d[w].children.Keys
              && (forall k :: k in d[w].children ==> u[k] == d[w].children[k])
              && (forall k :: k in d && k != Metadata && k != w && k !in d[w].children ==> u[k] == d[k])
    ensures (forall w :: !OnlyDir(d - {Metadata}, w)) ==> u == d - {Metadata}
  {
    var s := d - {Metadata};
    if exists w :: OnlyDir(s, w) then
      var w :| OnlyDir(s, w);
      assert forall v :: OnlyDir(s, v) ==> v == w;
      (s - {w}) + s[w].children
    else
      s
  }

  /** Steps 1 and 2, which scan listings, produce the listing-free `Unwrapped`. */
  lemma HoistIsUnwrapped(d: Folder, order: seq<string>)
    requires IsListing(order, d - {Metadata})
    requires HoistSafe(d - {Metadata})
    ensures Hoist(d - {Metadata}, order) == Unwrapped(d)
  {
    var s := d - {Metadata};
    if w :| OnlyDir(s, w) {
      assert Hoist(s, order).Keys == Unwrapped(d).Keys;
    }
  }

  /**
   A `__MACOSX` entry survives the cleaning only when the lone wrapper
   directory held one: it is not a target name, so it must have been in
   the unwrapped folder already.
   */
  lemma MetadataOnlyFromWrapper(d: Folder, order: seq<string>, model: string, r: Folder)
    requires RenamedFrom(Unwrapped(d), order, model, r)
    requires forall k :: k in r ==> k in Unwrapped(d) || k == model + WeightsMarker || k == model + IndexMarker
    ensures Metadata in r ==> exists w :: OnlyDir(d - {Metadata}, w) && Metadata in d[w].children
  {
    CanonicalNamesDiffer(model);
  }

  /**
   `clean_extracted_files`: strip the metadata folder, unwrap a lone
   directory, rename the artifacts. It fails only when the metadata name is
   a file. Otherwise the result is the unwrapped folder renamed in the
   sense of `RenamedFrom`, a `__MACOSX` entry is left only when the wrapper
   held one, and for a model name without `.pth` no entry is left that
   could still take a free canonical name.
   */
  function Clean(d: Folder, model: string, dirOrder: seq<string>, renameOrder: seq<string>): (r: Result<Folder, CleanError>)
    requires PathSep !in model
    requires CleanInputs(d, dirOrder, renameOrder)
    ensures r.Err? <==> Metadata in d && d[Metadata].File?
    ensures r.Ok? ==> RenamedFrom(Unwrapped(d), renameOrder, model, r.value)
    ensures r.Ok? && Metadata in r.value ==> exists w :: OnlyDir(d - {Metadata}, w) && Metadata in d[w].children
    ensures r.Ok? && !Contains(model, WeightsMarker) ==> Settled(r.value, model)
  {
    match StripMetadata(d)
    case Err(e) => Err(e)
    case Ok(s) =>
      HoistIsUnwrapped(d, dirOrder);
      var r := RenameArtifacts(Hoist(s, dirOrder), renameOrder, model);
      MetadataOnlyFromWrapper(d, renameOrder, model, r);
      Ok(r)
  }

  /**
   Only one level is unwrapped: a `__MACOSX` folder inside the lone wrapper
   is moved up and survives the cleaning, whatever the model name.
   */
  lemma NestedMetadataSurvives(w: string, inner: Folder, model: string)
    requires PathSep !in model
    requires w != Metadata
    ensures CleanInputs(map[w := Dir(map[Metadata := Dir(inner)])], [w], [Metadata])
    ensures Clean(map[w := Dir(map[Metadata := Dir(inner)])], model, [w], [Metadata])
              == Ok(map[Metadata := Dir(inner)])
  {
    var d := map[w := Dir(map[Metadata := Dir(inner)])];
    var h := map[Metadata := Dir(inner)];
    assert StripMetadata(d) == Ok(d);
    assert OnlyDir(d, w);
    assert HoistSafe(d) by {
      forall v | OnlyDir(d, v) ensures d[v].children.Keys !! d.Keys {
        assert v == w;
      }
    }
    assert Hoist(d, [w]) == h by {
      assert Hoist(d, [w]).Keys == h.Keys;
    }
    MissingCharExcludes(Metadata, WeightsMarker, 0);
    MissingCharExcludes(Metadata, IndexMarker, 0);
    assert Target(Metadata, model).None?;
    assert RenameAll(h, [Metadata], model) == RenameAll(h, [], model);
  }
}
