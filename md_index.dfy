/**
 * The Markdown file index of src/extension.ts: `MdEntry`, the module-level
 * `mdIndex` array and the functions that keep it current (`addToIndex`,
 * `removeFromIndex`, `refreshIndex`).
 */
module MdIndexing {
  import opened Seqs
  import opened Strings
  import opened Host

  /**
   * One indexed Markdown file. `workspaceFolder` is the file-system path of
   * the workspace folder that contains the file, when the host knows one.
   */
  datatype MdEntry = MdEntry(
    uri: Uri,
    filename: string,
    relativePath: string,
    absFsPath: string,
    workspaceFolder: Option<string>)

  /** Entries are identified by the URI's string form. */
  function Key(e: MdEntry): string
  {
    e.uri.text
  }

  /**
   * The `relativePath` computed by `addToIndex`: with a workspace folder whose
   * path, without trailing separators, starts the file's path, what follows
   * that base and one more character; with a folder that does not, the file
   * name; both with backslashes turned into slashes. Without a folder, the
   * file name as it is.
   */
  function RelativePath(full: string, filename: string, wsFolder: Option<string>): (r: string)
    ensures wsFolder.None? ==> r == filename
    ensures wsFolder.Some? ==> '\\' !in r
    ensures wsFolder.Some? && StartsWith(full, StripTrailingSeps(wsFolder.value)) ==>
      var skip := |StripTrailingSeps(wsFolder.value)| + 1;
      |r| == (if skip <= |full| then |full| - skip else 0) &&
      forall i :: 0 <= i < |r| ==> r[i] == PosixChar(full[skip + i])
    ensures wsFolder.Some? && !StartsWith(full, StripTrailingSeps(wsFolder.value)) ==>
      |r| == |filename| && forall i :: 0 <= i < |r| ==> r[i] == PosixChar(filename[i])
  {
    match wsFolder
    case None => filename
    case Some(folder) =>
      var base := StripTrailingSeps(folder);
      var rel := if StartsWith(full, base) then SliceFrom(full, |base| + 1) else filename;
      var posix := ToPosix(rel);
      assert forall i :: 0 <= i < |posix| ==> posix[i] == PosixChar(rel[i]);
      posix
  }

  /** The entry `addToIndex` pushes for `uri` in workspace folder `wsFolder`. */
  function MakeEntry(uri: Uri, wsFolder: Option<string>): (e: MdEntry)
    ensures Key(e) == uri.text
  {
    var filename := Basename(uri.fsPath);
    MdEntry(uri, filename, RelativePath(uri.fsPath, filename, wsFolder), uri.fsPath, wsFolder)
  }

  /** The number of entries of `s` with key `k`. */
  function KeyCount(s: seq<MdEntry>, k: string): nat
    decreases |s|
  {
    if s == [] then 0 else (if Key(s[0]) == k then 1 else 0) + KeyCount(s[1..], k)
  }

  /** No two entries share a key. */
  ghost predicate UniqueKeys(s: seq<MdEntry>)
  {
    forall i, j :: 0 <= i < j < |s| ==> Key(s[i]) != Key(s[j])
  }

  /** The keys present in `s`. */
  ghost function KeySet(s: seq<MdEntry>): set<string>
  {
    set e | e in s :: Key(e)
  }

  /** `removeFromIndex`: keep the entries whose key is not `k`, in order. */
  function Without(s: seq<MdEntry>, k: string): seq<MdEntry>
  {
    Filter(s, e => Key(e) != k)
  }

  /** `addToIndex`: remove the entries with `e`'s key, then append `e`. */
  function Upsert(s: seq<MdEntry>, e: MdEntry): seq<MdEntry>
  {
    Without(s, Key(e)) + [e]
  }

  /** `refreshIndex`: start empty and add every URI of `uris` in turn. */
  function Rebuild(uris: seq<Uri>, folderOf: Uri -> Option<string>): seq<MdEntry>
    decreases |uris|
  {
    if uris == [] then []
    else
      var last := uris[|uris| - 1];
      Upsert(Rebuild(uris[..|uris| - 1], folderOf), MakeEntry(last, folderOf(last)))
  }

  lemma {:induction false} KeyCountConcat(a: seq<MdEntry>, b: seq<MdEntry>, k: string)
    ensures KeyCount(a + b, k) == KeyCount(a, k) + KeyCount(b, k)
    decreases |a|
  {
    if a == [] {
      assert a + b == b;
    } else {
      assert (a + b)[0] == a[0];
      assert (a + b)[1..] == a[1..] + b;
      KeyCountConcat(a[1..], b, k);
    }
  }

  lemma {:induction false} KeyCountZero(s: seq<MdEntry>, k: string)
    ensures KeyCount(s, k) == 0 <==> forall e :: e in s ==> Key(e) != k
    decreases |s|
  {
    if s != [] {
      KeyCountZero(s[1..], k);
      assert forall e :: e in s <==> e == s[0] || e in s[1..];
    }
  }

  /** With distinct keys, a key is held by at most one entry, and by one exactly when it is present. */
  lemma {:induction false} UniqueKeyCount(s: seq<MdEntry>, k: string)
    requires UniqueKeys(s)
    ensures KeyCount(s, k) == if k in KeySet(s) then 1 else 0
    decreases |s|
  {
    KeyCountZero(s, k);
    if s != [] {
      assert UniqueKeys(s[1..]) by {
        forall i, j | 0 <= i < j < |s[1..]| ensures Key(s[1..][i]) != Key(s[1..][j]) {
          assert s[1..][i] == s[i + 1] && s[1..][j] == s[j + 1];
        }
      }
      UniqueKeyCount(s[1..], k);
      KeyCountZero(s[1..], k);
      if Key(s[0]) == k {
        forall e | e in s[1..] ensures Key(e) != k {
          var j :| 0 <= j < |s[1..]| && s[1..][j] == e;
          assert s[j + 1] == e;
        }
      }
      assert forall e :: e in s <==> e == s[0] || e in s[1..];
    }
  }

  /**
   * `removeFromIndex(u)` leaves exactly the entries whose key is not `k`,
   * in their order, and as many as the entries with key `k` fewer.
   */
  lemma {:induction false} WithoutSpec(s: seq<MdEntry>, k: string)
    ensures forall e :: e in Without(s, k) <==> e in s && Key(e) != k
    ensures IsSubseq(Without(s, k), s)
    ensures KeyCount(Without(s, k), k) == 0
    ensures |Without(s, k)| == |s| - KeyCount(s, k)
    decreases |s|
  {
    KeyCountZero(Without(s, k), k);
    if s != [] {
      WithoutSpec(s[1..], k);
      assert s == [s[0]] + s[1..];
      FilterConcat([s[0]], s[1..], e => Key(e) != k);
    }
  }

  /** Removing a key that is absent changes nothing. */
  lemma WithoutAbsent(s: seq<MdEntry>, k: string)
    requires KeyCount(s, k) == 0
    ensures Without(s, k) == s
  {
    KeyCountZero(s, k);
    assert forall i :: 0 <= i < |s| ==> s[i] in s;
  }

  /** Removing the same key twice is removing it once. */
  lemma WithoutIdempotent(s: seq<MdEntry>, k: string)
    ensures Without(Without(s, k), k) == Without(s, k)
  {
    WithoutSpec(s, k);
    WithoutAbsent(Without(s, k), k);
  }

  /** Removing one key keeps the keys distinct. */
  lemma {:induction false} WithoutUnique(s: seq<MdEntry>, k: string)
    requires UniqueKeys(s)
    ensures UniqueKeys(Without(s, k))
    decreases |s|
  {
    if s != [] {
      assert UniqueKeys(s[1..]) by {
        forall i, j | 0 <= i < j < |s[1..]| ensures Key(s[1..][i]) != Key(s[1..][j]) {
          assert s[1..][i] == s[i + 1] && s[1..][j] == s[j + 1];
        }
      }
      WithoutUnique(s[1..], k);
      WithoutSpec(s[1..], k);
      assert s == [s[0]] + s[1..];
      FilterConcat([s[0]], s[1..], e => Key(e) != k);
      var rest := Without(s[1..], k);
      forall e | e in rest ensures Key(e) != Key(s[0]) {
        var j :| 0 <= j < |s[1..]| && s[1..][j] == e;
        assert s[j + 1] == e;
      }
    }
  }

  /**
   * After `addToIndex`, exactly one entry has the added key and it is the
   * last; the entries with other keys are those of before, in their order.
   */
  lemma UpsertSpec(s: seq<MdEntry>, e: MdEntry)
    ensures KeyCount(Upsert(s, e), Key(e)) == 1
    ensures Upsert(s, e)[|Upsert(s, e)| - 1] == e
    ensures Without(Upsert(s, e), Key(e)) == Without(s, Key(e))
    ensures UniqueKeys(s) ==> UniqueKeys(Upsert(s, e))
  {
    var k := Key(e);
    WithoutSpec(s, k);
    KeyCountConcat(Without(s, k), [e], k);
    assert KeyCount([e], k) == 1;
    FilterConcat(Without(s, k), [e], x => Key(x) != k);
    assert Without([e], k) == [];
    WithoutIdempotent(s, k);
    if UniqueKeys(s) {
      WithoutUnique(s, k);
    }
  }

  /** The change handler's remove-then-add equals a plain add. */
  lemma ChangeIsUpsert(s: seq<MdEntry>, e: MdEntry)
    ensures Upsert(Without(s, Key(e)), e) == Upsert(s, e)
  {
    WithoutIdempotent(s, Key(e));
  }

  /** Adding an entry adds its key to the key set and no other. */
  lemma UpsertKeys(s: seq<MdEntry>, e: MdEntry)
    ensures KeySet(Upsert(s, e)) == KeySet(s) + {Key(e)}
  {
    WithoutSpec(s, Key(e));
    var r := Upsert(s, e);
    forall k | k in KeySet(s) + {Key(e)} ensures k in KeySet(r) {
      if k != Key(e) {
        var x :| x in s && Key(x) == k;
        assert x in r;
      } else {
        assert e in r;
      }
    }
  }

  /** The string forms of the URIs of `uris`. */
  ghost function Texts(uris: seq<Uri>): set<string>
  {
    set u | u in uris :: u.text
  }

  lemma TextsOfLast(uris: seq<Uri>)
    requires uris != []
    ensures forall u :: u in uris <==> u in uris[..|uris| - 1] || u == uris[|uris| - 1]
    ensures Texts(uris) == Texts(uris[..|uris| - 1]) + {uris[|uris| - 1].text}
  {
    assert uris == uris[..|uris| - 1] + [uris[|uris| - 1]];
  }

  /**
   * `refreshIndex` yields distinct keys, exactly the distinct URIs of the
   * list, each entry built from a URI of the list.
   */
  lemma {:induction false} RebuildSpec(uris: seq<Uri>, folderOf: Uri -> Option<string>)
    ensures UniqueKeys(Rebuild(uris, folderOf))
    ensures KeySet(Rebuild(uris, folderOf)) == Texts(uris)
    ensures forall e :: e in Rebuild(uris, folderOf) ==>
      exists u :: u in uris && e == MakeEntry(u, folderOf(u))
    decreases |uris|
  {
    if uris != [] {
      var init := uris[..|uris| - 1];
      var last := uris[|uris| - 1];
      var prev := Rebuild(init, folderOf);
      var added := MakeEntry(last, folderOf(last));
      var r := Rebuild(uris, folderOf);
      assert r == Upsert(prev, added);
      TextsOfLast(uris);
      RebuildSpec(init, folderOf);
      assert UniqueKeys(r) by {
        UpsertSpec(prev, added);
      }
      assert KeySet(r) == Texts(uris) by {
        UpsertKeys(prev, added);
      }
      forall e | e in r ensures exists u :: u in uris && e == MakeEntry(u, folderOf(u)) {
        WithoutSpec(prev, last.text);
        if e != added {
          assert e in prev;
        }
      }
    }
  }

  /** One more step of `refreshIndex`: rebuilding one URI further adds that URI. */
  lemma RebuildStep(uris: seq<Uri>, i: nat, folderOf: Uri -> Option<string>)
    requires i < |uris|
    ensures Rebuild(uris[..i + 1], folderOf) == Upsert(Rebuild(uris[..i], folderOf), MakeEntry(uris[i], folderOf(uris[i])))
  {
    assert uris[..i + 1][..i] == uris[..i];
  }

  /** `mdIndex` together with the functions that update it. */
  class MdIndex {
    var entries: seq<MdEntry>

    /** At most one entry per URI. */
    ghost predicate Valid()
      reads this
    {
      UniqueKeys(entries)
    }

    constructor ()
      ensures entries == [] && Valid()
    {
      entries := [];
    }

    /** `removeFromIndex(uri)`. */
    method Remove(uri: Uri)
      modifies this
      ensures entries == Without(old(entries), uri.text)
      ensures KeyCount(entries, uri.text) == 0
      ensures old(Valid()) ==> Valid()
      ensures old(Valid()) ==>
        |entries| == |old(entries)| - (if uri.text in KeySet(old(entries)) then 1 else 0)
    {
      WithoutSpec(entries, uri.text);
      if Valid() {
        WithoutUnique(entries, uri.text);
        UniqueKeyCount(entries, uri.text);
      }
      entries := Filter(entries, e => Key(e) != uri.text);
    }

    /** `addToIndex(uri)`, with `wsFolder` the host's `getWorkspaceFolder(uri)`. */
    method Add(uri: Uri, wsFolder: Option<string>)
      modifies this
      ensures entries == Upsert(old(entries), MakeEntry(uri, wsFolder))
      ensures KeyCount(entries, uri.text) == 1
      ensures entries[|entries| - 1] == MakeEntry(uri, wsFolder)
      ensures Without(entries, uri.text) == Without(old(entries), uri.text)
      ensures old(Valid()) ==> Valid()
    {
      UpsertSpec(entries, MakeEntry(uri, wsFolder));
      Remove(uri);
      var filename := Basename(uri.fsPath);
      var relativePath := RelativePath(uri.fsPath, filename, wsFolder);
      entries := entries + [MdEntry(uri, filename, relativePath, uri.fsPath, wsFolder)];
    }

    /**
     * The watcher's change handler: `removeFromIndex(uri)`, then
     * `addToIndex(uri)`; the result is that of a plain add.
     */
    method Change(uri: Uri, wsFolder: Option<string>)
      modifies this
      ensures entries == Upsert(old(entries), MakeEntry(uri, wsFolder))
      ensures old(Valid()) ==> Valid()
    {
      ChangeIsUpsert(entries, MakeEntry(uri, wsFolder));
      Remove(uri);
      Add(uri, wsFolder);
    }

    /**
     * `refreshIndex()`, with `uris` the Markdown files the host's `findFiles` returns
     * and `folderOf` its `getWorkspaceFolder`.
     */
    method Refresh(uris: seq<Uri>, folderOf: Uri -> Option<string>)
      modifies this
      ensures entries == Rebuild(uris, folderOf)
      ensures Valid()
      ensures KeySet(entries) == Texts(uris)
    {
      entries := [];
      for i := 0 to |uris|
        invariant entries == Rebuild(uris[..i], folderOf)
      {
        RebuildStep(uris, i, folderOf);
        Add(uris[i], folderOf(uris[i]));
      }
      assert uris[..|uris|] == uris;
      RebuildSpec(uris, folderOf);
    }
  }
}
