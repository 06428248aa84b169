/**
  The artwork files: written when decoded, handed out when displayed, pruned by
  the one place that knows which are shown and which are about to be.
*/
module Artwork {
  const SLOTS: nat := 4

  // A slot's image; its path is named after the hash of its bytes.
  datatype Image = Image(valid: bool, path: string, png: bool, bytes: nat, seqNo: nat)

  const NONE := Image(false, "", false, 0, 0)

  predicate NoDuplicates(s: seq<string>) {
    forall i, j :: 0 <= i < j < |s| ==> s[i] != s[j]
  }

  // `s` without `p`, in the same order.
  function Without(s: seq<string>, p: string): (r: seq<string>)
    ensures forall x :: x in r <==> x in s && x != p
    ensures NoDuplicates(s) ==> NoDuplicates(r)
    ensures |r| <= |s| && (p in s ==> |r| < |s|)
  {
    if s == [] then []
    else if s[0] == p then Without(s[1..], p)
    else
      var rest := Without(s[1..], p);
      assert NoDuplicates(s) ==> s[0] !in s[1..] && s[0] !in rest;
      [s[0]] + rest
  }

  function PendingPaths(s: seq<Image>): set<string> {
    set i | 0 <= i < |s| && s[i].valid :: s[i].path
  }

  lemma PendingWith(s: seq<Image>, k: nat, img: Image)
    requires k < |s|
    ensures PendingPaths(s[k := img]) == PendingPaths(s[k := NONE]) + if img.valid then {img.path} else {}
  {
    var without, with := s[k := NONE], s[k := img];
    forall p | p in PendingPaths(without)
      ensures p in PendingPaths(with)
    {
      var i :| 0 <= i < |s| && without[i].valid && without[i].path == p;
      assert with[i] == without[i];
    }
    forall p | p in PendingPaths(with)
      ensures p in PendingPaths(without) || (img.valid && p == img.path)
    {
      var i :| 0 <= i < |s| && with[i].valid && with[i].path == p;
      assert i != k ==> without[i] == with[i];
    }
    assert with[k] == img;
  }

  // What a staged write does to the files: those still wanted stay, and none
  // is left over unless a failed write was of the slot's own last path.
  lemma StagedDisk(shown: set<string>, others: set<string>, was: Image, path: string, ok: bool,
                   before: set<string>, after: set<string>)
    requires shown + others + (if was.valid then {was.path} else {}) <= before
    requires var dropped := was.valid && was.path != path && was.path !in shown && was.path !in others;
      after == before + (if ok then {path} else {}) - (if dropped then {was.path} else {})
    ensures var wanted := shown + others + if ok then {path} else {};
      && wanted <= after
      && (before == shown + others + (if was.valid then {was.path} else {}) ==>
            (after == wanted <==> !(!ok && was.valid && was.path == path && path !in shown && path !in others)))
  {
  }

  function Elements(s: seq<string>): set<string> { set p | p in s }

  class ArtworkStore {
    const keep: nat
    const pending: array<Image>
    var shown: seq<string>
    var nextSeq: nat
    // The files in the directory.
    var disk: set<string>
    // A failed write left a file that is neither shown nor pending.
    ghost var leaked: bool

    predicate PendingPath(path: string)
      reads pending
    {
      exists i :: 0 <= i < pending.Length && pending[i].valid && pending[i].path == path
    }

    lemma PendingPathIsMember(path: string)
      ensures PendingPath(path) <==> path in PendingPaths(pending[..])
    {
      if PendingPath(path) {
        var i :| 0 <= i < pending.Length && pending[i].valid && pending[i].path == path;
        assert pending[..][i] == pending[i];
      }
    }

    ghost function Wanted(): set<string>
      reads this`shown, pending
    {
      Elements(shown) + PendingPaths(pending[..])
    }

    ghost predicate Valid()
      reads this, pending
    {
      && pending.Length == SLOTS && keep >= 1
      && |shown| <= keep && NoDuplicates(shown)
      && Wanted() <= disk
      && (leaked || disk == Wanted())
    }

    constructor (keep: nat)
      ensures Valid() && fresh(pending) && shown == [] && disk == {} && !leaked
      ensures this.keep == if keep < 1 then 1 else keep
      ensures forall i :: 0 <= i < pending.Length ==> pending[i] == NONE
    {
      this.keep := if keep < 1 then 1 else keep;
      pending := new Image[SLOTS](i => NONE);
      shown, nextSeq, disk, leaked := [], 0, {}, false;
    }

    // The write goes to a temporary file that is renamed, or removed on failure.
    method WriteFile(path: string, writes: bool) returns (ok: bool)
      modifies this`disk
      ensures ok == writes && disk == if ok then old(disk) + {path} else old(disk)
    {
      ok := writes;
      if ok {
        disk := disk + {path};
      }
    }

    // A failed write of the slot's own pending path, wanted by nobody else,
    // leaves the file behind without a use.
    predicate Leaks(slot: nat, path: string, ok: bool)
      requires slot < pending.Length
      reads this`shown, pending
    {
      && !ok && pending[slot].valid && pending[slot].path == path && path !in shown
      && path !in PendingPaths(pending[..][slot := NONE])
    }

    // Writes an image for `slot`; `writes` says whether writing its file works.
    // The directory stays exact in just the cases that do not leak.
    method Stage(slot: nat, path: string, length: nat, png: bool, writes: bool) returns (ok: bool)
      requires Valid()
      modifies this`disk, this`nextSeq, this`leaked, pending
      ensures Valid() && ok == (slot < SLOTS && writes)
      ensures slot >= SLOTS ==> disk == old(disk) && pending[..] == old(pending[..]) && leaked == old(leaked)
      ensures slot < SLOTS ==>
        && pending[..] == old(pending[..])[slot := Image(ok, path, png, length, nextSeq)]
        && nextSeq == old(nextSeq) + 1
        && leaked == (old(leaked) || old(Leaks(slot, path, ok)))
        && (old(disk == Wanted()) ==> (disk == Wanted() <==> !old(Leaks(slot, path, ok))))
        && disk <= old(disk) + {path}
    {
      if slot >= SLOTS {
        return false;
      }
      LeaksIs(slot, path, writes);
      hide PendingPaths, Elements, PendingPath, NoDuplicates, Leaks;
      ghost var before, was := pending[..], pending[slot];
      leaked := leaked || Leaks(slot, path, writes);
      ok := WriteFile(path, writes);
      DropFormer(slot, path);
      nextSeq := nextSeq + 1;
      pending[slot] := Image(ok, path, png, length, nextSeq);
      StagedIs(before, slot, was, pending[slot], pending[..]);
      StagedDisk(Elements(shown), PendingPaths(before[slot := NONE]), was, path, ok, old(disk), disk);
    }

    lemma LeaksIs(slot: nat, path: string, ok: bool)
      requires slot < pending.Length
      ensures Leaks(slot, path, ok) <==>
                && !ok && pending[slot].valid && pending[slot].path == path
                && path !in Elements(shown) && path !in PendingPaths(pending[..][slot := NONE])
    {
      ShownIsMember(path);
    }

    lemma StagedIs(before: seq<Image>, slot: nat, was: Image, img: Image, after: seq<Image>)
      requires slot < |before| && before[slot] == was && after == before[slot := NONE][slot := img]
      ensures after == before[slot := img]
      ensures PendingPaths(after) == PendingPaths(before[slot := NONE]) + if img.valid then {img.path} else {}
      ensures PendingPaths(before) == PendingPaths(before[slot := NONE]) + if was.valid then {was.path} else {}
    {
      assert after == before[slot := img] && before == before[slot := was];
      PendingWith(before, slot, img);
      PendingWith(before, slot, was);
    }

    // The slot's last image goes, and its file if nobody else wants it and it
    // is not the one at `path`.
    method DropFormer(slot: nat, path: string)
      requires slot < pending.Length
      modifies this`disk, pending
      ensures pending[..] == old(pending[..])[slot := NONE]
      ensures var was := old(pending[slot]);
        var dropped := was.valid && was.path != path && was.path !in Elements(shown) && was.path !in PendingPaths(pending[..]);
        disk == old(disk) - (if dropped then {was.path} else {})
    {
      var was := pending[slot];
      ghost var before := pending[..];
      pending[slot] := NONE;
      assert pending[..] == before[slot := NONE];
      PendingPathIsMember(was.path);
      ShownIsMember(was.path);
      hide PendingPaths, Elements, PendingPath;
      if was.valid && was.path != path && was.path !in shown && !PendingPath(was.path) {
        disk := disk - {was.path};
      }
    }

    lemma ShownIsMember(path: string)
      ensures path in shown <==> path in Elements(shown)
    {
    }

    // Displays the slot's image: it becomes the most recent of at most `keep`,
    // and the files that fall out go unless they are pending again.
    method Take(slot: nat) returns (img: Image)
      requires Valid()
      modifies this`disk, this`shown, pending
      ensures Valid()
      ensures slot >= SLOTS ==> img == NONE && pending[..] == old(pending[..])
      ensures slot < SLOTS ==> img == old(pending[slot]) && pending[..] == old(pending[..])[slot := NONE]
      ensures !img.valid ==> shown == old(shown) && disk == old(disk)
      ensures img.valid ==>
        var all := [img.path] + Without(old(shown), img.path);
        && shown == all[..if |all| < keep then |all| else keep]
        && disk == old(disk) - (Elements(all) - Elements(shown) - PendingPaths(pending[..]))
      ensures img.valid ==> img.path in disk && shown[0] == img.path
    {
      if slot >= SLOTS {
        return NONE;
      }
      ghost var before := pending[..];
      img := pending[slot];
      pending[slot] := NONE;
      assert pending[..] == before[slot := NONE] && before == before[slot := img];
      PendingWith(before, slot, img);
      if !img.valid {
        return;
      }
      shown := [img.path] + Without(shown, img.path);
      ghost var all := shown;
      assert Elements(all) == Elements(old(shown)) + {img.path};
      Evict();
      assert shown[0] == all[0];
      assert Elements(shown) <= Elements(all);
    }

    // Displayed files beyond `keep` go, the oldest first.
    method Evict()
      requires keep >= 1 && NoDuplicates(shown)
      modifies this`disk, this`shown
      ensures shown == old(shown)[..if |old(shown)| < keep then |old(shown)| else keep]
      ensures NoDuplicates(shown)
      ensures disk == old(disk) - (Elements(old(shown)) - Elements(shown) - PendingPaths(pending[..]))
    {
      ghost var all := shown;
      while |shown| > keep
        invariant |shown| <= |all| && shown == all[..|shown|] && (|shown| == |all| || |shown| >= keep)
        invariant disk == old(disk) - (Elements(all) - Elements(shown) - PendingPaths(pending[..]))
      {
        var victim := shown[|shown| - 1];
        ghost var longer := shown;
        shown := shown[..|shown| - 1];
        LastIsOnce(longer);
        PendingPathIsMember(victim);
        if !PendingPath(victim) {
          disk := disk - {victim};
        }
      }
    }

    lemma LastIsOnce(s: seq<string>)
      requires s != [] && NoDuplicates(s)
      ensures Elements(s[..|s| - 1]) == Elements(s) - {s[|s| - 1]}
    {
      assert s == s[..|s| - 1] + [s[|s| - 1]];
    }
  }

  // The leak is reachable: an image staged again under its own path, in the
  // same slot, when the second write fails.
  method FailedRewriteLeaks(keep: nat, path: string) returns (store: ArtworkStore)
    ensures fresh(store) && store.Valid() && store.leaked
    ensures store.disk == {path} && store.Wanted() == {}
  {
    store := new ArtworkStore(keep);
    var _ := store.Stage(0, path, 1, true, true);
    ghost var once := store.pending[..];
    assert store.pending[0] == once[0] && once[0].valid && once[0].path == path;
    var _ := store.Stage(0, path, 1, true, false);
    assert forall i :: 0 <= i < SLOTS ==> !store.pending[..][i].valid;
  }
}
