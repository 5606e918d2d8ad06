/** The ordered list of uploaded images held by the App component, and the
    state updaters that App hands to `setImages` when files are added or an
    image is removed (src/App.tsx). React state is modelled as a value: each
    updater is a function from the previous list to the next one. */
module ImageList {
  import opened Wrappers

  /** The browser File object picked by the user; only its identity matters. */
  datatype FileRef = FileRef(handle: nat)

  /** One entry of the list: its (random, not necessarily unique) id, the object
      URL created for it, and the picked file. */
  datatype ImageData = ImageData(id: string, url: string, file: FileRef)

  /** What `removeImage`'s updater produces: the next list, and the object URL it
      released with `URL.revokeObjectURL`, if any. */
  datatype Removal = Removal(images: seq<ImageData>, revoked: Option<string>)

  function Ids(s: seq<ImageData>): seq<string>
  {
    seq(|s|, k requires 0 <= k < |s| => s[k].id)
  }

  function Files(s: seq<ImageData>): seq<FileRef>
  {
    seq(|s|, k requires 0 <= k < |s| => s[k].file)
  }

  /** No two entries share an id. The application relies on it (ids are React
      keys and drag identifiers) but random ids do not guarantee it. */
  ghost predicate UniqueIds(s: seq<ImageData>)
  {
    forall i, j :: 0 <= i < j < |s| ==> s[i].id != s[j].id
  }

  /** `a` is obtained from `b` by deleting zero or more entries. */
  ghost predicate IsSubsequence(a: seq<ImageData>, b: seq<ImageData>)
    decreases |b|
  {
    a == [] || (b != [] && ((a[0] == b[0] && IsSubsequence(a[1..], b[1..])) || IsSubsequence(a, b[1..])))
  }

  // ---------------------------------------------------------------------------
  // Adding files (handleFileChange)

  /** The entries built for freshly picked files: one per file, in file order,
      with the id and object URL the browser supplied for it. */
  function NewImages(files: seq<FileRef>, ids: seq<string>, urls: seq<string>): (r: seq<ImageData>)
    requires |ids| == |files| && |urls| == |files|
    ensures Files(r) == files && Ids(r) == ids
    ensures forall k :: 0 <= k < |r| ==> r[k].url == urls[k]
  {
    seq(|files|, k requires 0 <= k < |files| => ImageData(ids[k], urls[k], files[k]))
  }

  /** The change handler of the file input. `selected` is the input's file list
      (absent when the browser reports none); `ids` and `urls` are the random id
      and the object URL generated for each picked file. */
  function HandleFileChange(prev: seq<ImageData>, selected: Option<seq<FileRef>>,
                            ids: seq<string>, urls: seq<string>): (r: seq<ImageData>)
    requires selected.Some? ==> |ids| == |selected.value| && |urls| == |selected.value|
    ensures selected.None? ==> r == prev
    ensures selected.Some? ==>
      && |r| == |prev| + |selected.value|
      && r[..|prev|] == prev
      && Files(r[|prev|..]) == selected.value
      && Ids(r[|prev|..]) == ids
      && forall k :: 0 <= k < |selected.value| ==> r[|prev| + k].url == urls[k]
  {
    match selected
    case None => prev
    case Some(files) =>
      var r := prev + NewImages(files, ids, urls);
      assert r[..|prev|] == prev;
      assert r[|prev|..] == NewImages(files, ids, urls);
      r
  }

  /** When the old ids are unique, the new ids are unique and none of them is
      already in use, the list after adding the files still has unique ids. */
  lemma AddKeepsUniqueIds(prev: seq<ImageData>, files: seq<FileRef>, ids: seq<string>, urls: seq<string>)
    requires |ids| == |files| && |urls| == |files|
    requires UniqueIds(prev)
    requires forall i, j :: 0 <= i < j < |ids| ==> ids[i] != ids[j]
    requires forall k :: 0 <= k < |ids| ==> ids[k] !in Ids(prev)
    ensures UniqueIds(HandleFileChange(prev, Some(files), ids, urls))
  {
    var n := NewImages(files, ids, urls);
    var r := prev + n;
    assert HandleFileChange(prev, Some(files), ids, urls) == r;
    forall i, j | 0 <= i < j < |r| ensures r[i].id != r[j].id {
      if j < |prev| {
        assert r[i] == prev[i] && r[j] == prev[j];
      } else {
        assert r[j] == n[j - |prev|] && n[j - |prev|].id == Ids(n)[j - |prev|];
        if i >= |prev| {
          assert r[i] == n[i - |prev|] && n[i - |prev|].id == Ids(n)[i - |prev|];
        } else {
          assert r[i] == prev[i] && prev[i].id == Ids(prev)[i];
        }
      }
    }
  }

  // ---------------------------------------------------------------------------
  // Finding an entry (Array.prototype.findIndex / find on the id)

  /** `findIndex(img => img.id === id)`: the index of the first entry with the
      id, or -1 when there is none. */
  function FirstWithId(s: seq<ImageData>, id: string): (k: int)
    ensures -1 <= k < |s|
    ensures k == -1 <==> id !in Ids(s)
    ensures k >= 0 ==> s[k].id == id && forall j :: 0 <= j < k ==> s[j].id != id
  {
    if s == [] then -1
    else
      assert Ids(s) == [s[0].id] + Ids(s[1..]);
      if s[0].id == id then 0
      else
        var k := FirstWithId(s[1..], id);
        if k == -1 then -1 else k + 1
  }

  // ---------------------------------------------------------------------------
  // Removing an entry (removeImage)

  /** `filter(img => img.id !== id)`: every entry with the id is dropped, every
      other entry is kept, in its original relative order. */
  function Without(s: seq<ImageData>, id: string): (r: seq<ImageData>)
    ensures forall k :: 0 <= k < |r| ==> r[k].id != id
    ensures forall e :: multiset(r)[e] == if e.id == id then 0 else multiset(s)[e]
    ensures IsSubsequence(r, s)
  {
    if s == [] then []
    else
      var rest := Without(s[1..], id);
      assert s == [s[0]] + s[1..];
      if s[0].id == id then
        assert IsSubsequence(rest, s);
        rest
      else
        var r := [s[0]] + rest;
        assert r[1..] == rest;
        r
  }

  /** The updater of `removeImage`: the filtered list, and the URL of the first
      entry with the id, which is revoked; nothing is revoked when no entry has
      the id. */
  function RemoveImage(prev: seq<ImageData>, id: string): (r: Removal)
    ensures id !in Ids(r.images)
    ensures forall e :: multiset(r.images)[e] == if e.id == id then 0 else multiset(prev)[e]
    ensures IsSubsequence(r.images, prev)
    ensures r.revoked.Some? <==> id in Ids(prev)
    ensures r.revoked.Some? ==>
      exists k :: 0 <= k < |prev| && prev[k].id == id && prev[k].url == r.revoked.value
                  && forall j :: 0 <= j < k ==> prev[j].id != id
  {
    var images := Without(prev, id);
    var removed := FirstWithId(prev, id);
    Removal(images, if removed < 0 then None else Some(prev[removed].url))
  }

  /** Removing an id that no entry carries changes nothing. */
  lemma {:induction false} WithoutAbsent(s: seq<ImageData>, id: string)
    requires id !in Ids(s)
    ensures Without(s, id) == s
  {
    if s != [] {
      assert Ids(s) == [s[0].id] + Ids(s[1..]);
      WithoutAbsent(s[1..], id);
      assert s == [s[0]] + s[1..];
    }
  }

  /** Removing the same id twice is the same as removing it once, and the
      second call revokes nothing. */
  lemma RemoveTwice(s: seq<ImageData>, id: string)
    ensures RemoveImage(RemoveImage(s, id).images, id) == Removal(RemoveImage(s, id).images, None)
  {
    WithoutAbsent(Without(s, id), id);
  }

  /** Filtering distributes over concatenation: removing from a list with newly
      added files equals removing from both parts. */
  lemma {:induction false} WithoutAppend(a: seq<ImageData>, b: seq<ImageData>, id: string)
    ensures Without(a + b, id) == Without(a, id) + Without(b, id)
  {
    if a == [] {
      assert a + b == b;
    } else {
      assert (a + b)[1..] == a[1..] + b;
      WithoutAppend(a[1..], b, id);
    }
  }

  /** Every entry kept by the filter was an entry of the input. */
  lemma WithoutKeeps(s: seq<ImageData>, id: string, e: ImageData)
    requires e in Without(s, id)
    ensures e in s && e.id != id
  {
    assert multiset(Without(s, id))[e] > 0;
  }

  /** Removal keeps ids unique. */
  lemma {:induction false} WithoutKeepsUniqueIds(s: seq<ImageData>, id: string)
    requires UniqueIds(s)
    ensures UniqueIds(Without(s, id))
  {
    if s != [] {
      WithoutKeepsUniqueIds(s[1..], id);
      var rest := Without(s[1..], id);
      if s[0].id != id {
        var r := [s[0]] + rest;
        assert Without(s, id) == r;
        forall i, j | 0 <= i < j < |r| ensures r[i].id != r[j].id {
          assert r[j] == rest[j - 1];
          if i == 0 {
            WithoutKeeps(s[1..], id, rest[j - 1]);
            var m :| 0 <= m < |s[1..]| && s[1..][m] == rest[j - 1];
            assert s[m + 1] == r[j];
          } else {
            assert r[i] == rest[i - 1];
          }
        }
      }
    }
  }

  /** With unique ids the filter removes exactly one entry when the id is
      present and none otherwise. */
  lemma {:induction false} WithoutUniqueLength(s: seq<ImageData>, id: string)
    requires UniqueIds(s)
    ensures |Without(s, id)| == if id in Ids(s) then |s| - 1 else |s|
  {
    if s != [] {
      assert Ids(s) == [s[0].id] + Ids(s[1..]);
      WithoutUniqueLength(s[1..], id);
      if s[0].id == id {
        forall k | 0 <= k < |s[1..]| ensures Ids(s[1..])[k] != id {
          assert s[1..][k] == s[k + 1];
        }
      }
    }
  }
}
