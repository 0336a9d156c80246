/**
 The archive path of `model_download` end to end, on the shape the tool is
 built for: an archive whose files sit inside one wrapper folder, perhaps
 next to a `__MACOSX` folder. Cleaning leaves exactly the two canonical
 artifacts, and the artifact search then finds one path of each kind.
 */
module Pipeline {
  import opened Results
  import opened Strings
  import opened Tree
  import opened Artifacts
  import opened Layout
  import ArtifactSearch

  /** The extracted archive: wrapper `w` holding `a` and `b`, with a metadata folder beside it when `withMetadata` holds. */
  function Extracted(w: string, a: string, b: string, fa: seq<bv8>, fb: seq<bv8>, withMetadata: bool): Folder {
    var d := map[w := Dir(map[a := File(fa), b := File(fb)])];
    if withMetadata then d[Metadata := Dir(map[])] else d
  }

  /** The folder the tool aims for: one weights file and one index file under the model's name. */
  function Canonical(model: string, fa: seq<bv8>, fb: seq<bv8>): Folder {
    map[model + WeightsMarker := File(fa), model + IndexMarker := File(fb)]
  }

  /** Each canonical name ends with its own marker and not with the other one. */
  lemma CanonicalNames(model: string)
    ensures EndsWith(model + WeightsMarker, WeightsMarker)
    ensures EndsWith(model + IndexMarker, IndexMarker)
    ensures !EndsWith(model + WeightsMarker, IndexMarker)
    ensures !EndsWith(model + IndexMarker, WeightsMarker)
  {
    var p := model + WeightsMarker;
    var x := model + IndexMarker;
    assert p[|p| - 1] == 'h' && x[|x| - 1] == 'x';
    assert p[|model|..] == WeightsMarker;
    assert x[|model|..] == IndexMarker;
    EndsWithLastChar(p, IndexMarker);
    EndsWithLastChar(x, WeightsMarker);
  }

  /** One pass of the rename loop over the wrapper's contents, in either listing order. */
  lemma RenamePair(a: string, b: string, fa: seq<bv8>, fb: seq<bv8>, model: string, order: seq<string>)
    requires a != b
    requires Contains(a, WeightsMarker) && Contains(b, IndexMarker) && !Contains(b, WeightsMarker)
    requires !Contains(model, WeightsMarker)
    requires a != model + WeightsMarker && b != model + IndexMarker
    requires order == [a, b] || order == [b, a]
    ensures RenameAll(map[a := File(fa), b := File(fb)], order, model) == Canonical(model, fa, fb)
  {
    var wp := model + WeightsMarker;
    var ix := model + IndexMarker;
    assert b != wp && a != ix && wp != ix by {
      CanonicalNames(model);
      CanonicalNamesDiffer(model);
      CanonicalNamesAreFixed(model);
    }
    var h := map[a := File(fa), b := File(fb)];
    var r := RenameAll(h, order, model);
    var i := if order == [a, b] then 0 else 1;
    assert r[wp] == File(fa) && r[ix] == File(fb) && wp in r && ix in r by {
      FirstWeightsWins(h, order, model, i);
      FirstIndexWins(h, order, model, 1 - i);
    }
    assert |r| == 2 by {
      RenameAllMoves(h, order, model);
    }
    TwoEntries(r, wp, ix);
  }

  /** A two-entry folder holding two different names holds nothing else. */
  lemma TwoEntries(r: Folder, x: string, y: string)
    requires x != y && x in r && y in r && |r| == 2
    ensures r == map[x := r[x], y := r[y]]
  {
    var rest := r.Keys - {x, y};
    assert r.Keys == rest + {x, y};
    assert |r.Keys| == |rest| + 2;
    assert rest == {};
    assert r.Keys == map[x := r[x], y := r[y]].Keys;
  }

  /**
   Cleaning a wrapped archive, with or without a metadata folder, and in
   either listing order of the wrapper, yields exactly the canonical pair,
   each holding the bytes of the file that was renamed to it.
   */
  lemma CleanWrappedArchive(w: string, a: string, b: string, fa: seq<bv8>, fb: seq<bv8>,
                            withMetadata: bool, model: string, order: seq<string>)
    requires w != Metadata && a != b && a != w && b != w
    requires withMetadata ==> a != Metadata && b != Metadata
    requires Contains(a, WeightsMarker) && Contains(b, IndexMarker) && !Contains(b, WeightsMarker)
    requires PathSep !in model && !Contains(model, WeightsMarker)
    requires a != model + WeightsMarker && b != model + IndexMarker
    requires order == [a, b] || order == [b, a]
    ensures CleanInputs(Extracted(w, a, b, fa, fb, withMetadata), [w], order)
    ensures Clean(Extracted(w, a, b, fa, fb, withMetadata), model, [w], order) == Ok(Canonical(model, fa, fb))
  {
    var d := Extracted(w, a, b, fa, fb, withMetadata);
    var inner := map[a := File(fa), b := File(fb)];
    var s := map[w := Dir(inner)];
    if withMetadata {
      assert d == s[Metadata := Dir(map[])];
      assert d - {Metadata} == s;
    } else {
      assert d == s;
    }
    assert StripMetadata(d) == Ok(s);
    assert OnlyDir(s, w);
    assert HoistSafe(s) by {
      forall v | OnlyDir(s, v) ensures s[v].children.Keys !! s.Keys {
        assert v == w;
      }
    }
    assert IsListing([w], s);
    var h := Hoist(s, [w]);
    assert h == inner by {
      assert h.Keys == inner.Keys;
    }
    assert IsListing(order, h);
    RenamePair(a, b, fa, fb, model, order);
  }

  /**
   Searching the cleaned folder, in either listing order, finds exactly one
   weights path and one index path: those of the two canonical names.
   */
  lemma SearchCanonical(path: string, model: string, fa: seq<bv8>, fb: seq<bv8>, order: seq<string>)
    requires IsListing(order, Canonical(model, fa, fb))
    ensures ArtifactSearch.SearchArtifacts(path, Some(Canonical(model, fa, fb)), order)
              == ([PathJoin(path, model + WeightsMarker)], [PathJoin(path, model + IndexMarker)])
  {
    var c := Canonical(model, fa, fb);
    var wp := model + WeightsMarker;
    var ix := model + IndexMarker;
    CanonicalNames(model);
    CanonicalNamesDiffer(model);
    CanonicalListing(model, fa, fb, order);
    assert ArtifactSearch.Matching(order, c, WeightsMarker) == [wp] by {
      MatchingPair(order[0], order[1], c, WeightsMarker);
    }
    assert ArtifactSearch.Matching(order, c, IndexMarker) == [ix] by {
      MatchingPair(order[0], order[1], c, IndexMarker);
    }
    assert ArtifactSearch.PathsIn(path, [wp]) == [PathJoin(path, wp)];
    assert ArtifactSearch.PathsIn(path, [ix]) == [PathJoin(path, ix)];
  }

  /** The search's filter over a two-name listing, spelled out. */
  lemma MatchingPair(x: string, y: string, c: Folder, ext: string)
    requires x in c && y in c
    ensures ArtifactSearch.Matching([x, y], c, ext)
              == (if c[x].File? && EndsWith(x, ext) then [x] else [])
                 + (if c[y].File? && EndsWith(y, ext) then [y] else [])
  {
    assert [x, y][1..] == [y];
    assert [y][1..] == [];
  }

  /** A listing of the canonical folder names its two entries, in one order or the other. */
  lemma CanonicalListing(model: string, fa: seq<bv8>, fb: seq<bv8>, order: seq<string>)
    requires IsListing(order, Canonical(model, fa, fb))
    ensures order == [model + WeightsMarker, model + IndexMarker] || order == [model + IndexMarker, model + WeightsMarker]
  {
    var c := Canonical(model, fa, fb);
    CanonicalNamesDiffer(model);
    assert |order| == 2 by {
      assert (set n | n in order) == c.Keys == {model + WeightsMarker, model + IndexMarker};
      DistinctCard(order);
    }
    assert order[0] in c && order[1] in c && order[0] != order[1];
  }
}
