/** The `cleanup-storage` edge function: it deletes every file of the `education-images`
    bucket that no row of `generated_images` refers to, except the folder placeholder.
    The table rows and the bucket listing are inputs; the bucket itself is a set of names
    that a successful remove call shrinks. */
module Cleanup {
  import opened Common

  const BucketId := "education-images"
  /** Public URLs of bucket objects have this shape before the object's path. */
  const PublicPrefix := "/storage/v1/object/public"
  /** The text the function splits each URL on. */
  const Separator := "/" + BucketId + "/"
  /** The marker a URL must contain to be taken as a reference into the bucket. */
  const PublicMarker := PublicPrefix + Separator
  /** The reserved entry that keeps an otherwise empty folder alive. */
  const Placeholder := ".emptyFolderPlaceholder"
  /** The `limit` passed to the one listing call. */
  const ListLimit := 1000

  /** One entry of the bucket listing; only its name is consulted. */
  datatype FileObject = FileObject(name: string)

  /** What `select('image_url')` on `generated_images` gave: an error, or the data, which
      may itself be `null`; each row's `image_url` may be `null`. */
  datatype DbRead = DbFailed(message: string) | DbRows(rows: Option<seq<Option<string>>>)

  /** What the listing call gave: an error, or the data, which may be `null`. */
  datatype Listing = ListFailed(message: string) | Listed(files: Option<seq<FileObject>>)

  /** What the remove call gave. */
  datatype RemoveReply = RemoveFailed(message: string) | RemoveOk

  /** The JSON body of the response. */
  datatype Body =
    | NothingToClean(message: string, validFiles: nat, totalFiles: nat)
    | Cleaned(message: string, validFiles: nat, deletedFiles: nat, deletedPaths: seq<string>)
    | ErrorBody(error: string)

  datatype Response = Response(status: int, body: Body)

  /** One invocation: the paths handed to the remove call, if it was made, and the response. */
  datatype Run = Run(removeRequest: Option<seq<string>>, response: Response)

  // ---------------------------------------------------------------------------------------
  // From URL to bucket path

  /** A URL holding the marker holds the separator. */
  lemma MarkerImpliesSeparator(s: string)
    ensures Contains(s, PublicMarker) ==> Contains(s, Separator)
  {
    if Contains(s, PublicMarker) {
      var i: nat :| i <= |s| && OccursAt(s, PublicMarker, i);
      MarkerHoldsSeparator(s, i);
    }
  }

  /** The marker holds the separator, 25 characters in. */
  lemma MarkerHoldsSeparator(s: string, i: nat)
    requires OccursAt(s, PublicMarker, i)
    ensures OccursAt(s, Separator, i + |PublicPrefix|)
  {
    assert s[i..i + |PublicMarker|][|PublicPrefix|..] == Separator;
    assert s[i + |PublicPrefix|..i + |PublicPrefix| + |Separator|]
        == s[i..i + |PublicMarker|][|PublicPrefix|..];
  }

  /** `sep` occurs first at `i`, and the text after that occurrence runs up to `stop`, where
      `sep` occurs next or `s` ends. */
  predicate SplitsAt(s: string, sep: string, i: nat, stop: nat) {
    && OccursAt(s, sep, i)
    && (forall j: nat :: j < i ==> !OccursAt(s, sep, j))
    && i + |sep| <= stop <= |s|
    && (stop == |s| || OccursAt(s, sep, stop))
    && (forall j: nat :: i + |sep| <= j < stop ==> !OccursAt(s, sep, j))
  }

  /** `s.split(sep)[1]`: the text between the first occurrence of `sep` and the next one,
      or the end of `s`; `undefined` (None) when `sep` does not occur. */
  function SplitSecond(s: string, sep: string): (r: Option<string>)
    requires sep != []
    ensures r.Some? <==> Contains(s, sep)
    ensures r.Some? ==> exists i: nat, stop: nat :: SplitsAt(s, sep, i, stop) && r.value == s[i + |sep|..stop]
    ensures r.Some? ==> !Contains(r.value, sep)
  {
    match IndexFrom(s, sep, 0)
    case None => None
    case Some(i) =>
      var start := i + |sep|;
      var stop := match IndexFrom(s, sep, start) case Some(j) => j case None => |s|;
      var part := s[start..stop];
      assert SplitsAt(s, sep, i, stop);
      assert !Contains(part, sep) by {
        forall k: nat | k <= |part| && OccursAt(part, sep, k)
          ensures false
        {
          OccursInSlice(s, sep, start, stop, k);
        }
      }
      Some(part)
  }

  /** The callback of lines 38-46: a URL that contains the public marker maps to the text
      after the first `/education-images/` (up to the next one); anything else to `null`. */
  function PathOf(url: Option<string>): (r: Option<string>)
    ensures r.Some? <==> url.Some? && Contains(url.value, PublicMarker)
    ensures r.Some? ==> !Contains(r.value, Separator)
  {
    if url.Some? && Contains(url.value, PublicMarker) then
      MarkerImpliesSeparator(url.value);
      SplitSecond(url.value, Separator)
    else
      None
  }

  /** The path of a URL is the text after its first `/education-images/`, up to the next
      one or the end of the URL. */
  lemma PathOfSplits(url: string)
    requires Contains(url, PublicMarker)
    ensures PathOf(Some(url)).Some?
    ensures exists i: nat, stop: nat ::
      SplitsAt(url, Separator, i, stop) && PathOf(Some(url)).value == url[i + |Separator|..stop]
  {
    MarkerImpliesSeparator(url);
  }

  /** The public URL `prefix + PublicMarker + name` refers to `name`, provided the separator
      occurs neither in `name` nor anywhere before the marker's own occurrence of it. */
  lemma PathOfPublicUrl(prefix: string, name: string)
    requires !Contains(prefix + PublicMarker[..|PublicMarker| - 1], Separator)
    requires !Contains(name, Separator)
    ensures PathOf(Some(prefix + PublicMarker + name)) == Some(name)
  {
    var url := prefix + PublicMarker + name;
    var at := |prefix| + |PublicPrefix|;
    assert url[|prefix|..|prefix| + |PublicMarker|] == PublicMarker;
    assert OccursAt(url, PublicMarker, |prefix|);
    FirstSeparatorInPublicUrl(prefix, name);
    NoSeparatorAfterMarker(prefix, name);
    SplitSecondOfLast(url, Separator, at);
    assert url[at + |Separator|..] == name;
  }

  /** When `sep` occurs first at `at` and never again, the second part is all that follows. */
  lemma SplitSecondOfLast(s: string, sep: string, at: nat)
    requires sep != []
    requires IndexFrom(s, sep, 0) == Some(at)
    requires IndexFrom(s, sep, at + |sep|) == None
    ensures SplitSecond(s, sep) == Some(s[at + |sep|..])
  {
    assert s[at + |sep|..|s|] == s[at + |sep|..];
  }

  /** In such a URL the first separator is the marker's own. */
  lemma FirstSeparatorInPublicUrl(prefix: string, name: string)
    requires !Contains(prefix + PublicMarker[..|PublicMarker| - 1], Separator)
    ensures IndexFrom(prefix + PublicMarker + name, Separator, 0) == Some(|prefix| + |PublicPrefix|)
  {
    var url := prefix + PublicMarker + name;
    var n := |prefix| + |PublicMarker| - 1;
    assert url[|prefix|..|prefix| + |PublicMarker|] == PublicMarker;
    MarkerHoldsSeparator(url, |prefix|);
    assert url[..n] == prefix + PublicMarker[..|PublicMarker| - 1];
    forall j: nat | j < |prefix| + |PublicPrefix| && OccursAt(url, Separator, j)
      ensures false
    {
      OccursInPrefix(url, n, Separator, j);
    }
  }

  /** In such a URL no separator follows the marker. */
  lemma NoSeparatorAfterMarker(prefix: string, name: string)
    requires !Contains(name, Separator)
    ensures IndexFrom(prefix + PublicMarker + name, Separator, |prefix| + |PublicMarker|) == None
  {
    var url := prefix + PublicMarker + name;
    var n := |prefix| + |PublicMarker|;
    assert url[n..] == name;
    forall j: nat | n <= j && OccursAt(url, Separator, j)
      ensures false
    {
      OccursInSuffix(url, n, Separator, j);
    }
  }

  /** `validPaths` (lines 36-48): the non-empty paths the rows' URLs refer to. */
  function ValidPaths(rows: seq<Option<string>>): (r: set<string>)
    ensures |r| <= |rows|
    ensures forall i :: 0 <= i < |rows| && PathOf(rows[i]).Some? && PathOf(rows[i]).value != "" ==>
      PathOf(rows[i]).value in r
    ensures forall p :: p in r ==>
      p != "" && !Contains(p, Separator) && exists i :: 0 <= i < |rows| && PathOf(rows[i]) == Some(p)
  {
    if rows == [] then {}
    else
      var rest := ValidPaths(rows[1..]);
      var head := PathOf(rows[0]);
      var r := if head.Some? && head.value != "" then {head.value} + rest else rest;
      ValidPathsStep(rows, rest, r);
      r
  }

  /** One step of `ValidPaths`: the first row's path joins the paths of the others. */
  lemma ValidPathsStep(rows: seq<Option<string>>, rest: set<string>, r: set<string>)
    requires rows != []
    requires forall i :: 0 <= i < |rows| - 1 && PathOf(rows[1..][i]).Some? && PathOf(rows[1..][i]).value != "" ==>
      PathOf(rows[1..][i]).value in rest
    requires forall p :: p in rest ==>
      p != "" && !Contains(p, Separator) && exists i :: 0 <= i < |rows| - 1 && PathOf(rows[1..][i]) == Some(p)
    requires r == if PathOf(rows[0]).Some? && PathOf(rows[0]).value != "" then {PathOf(rows[0]).value} + rest else rest
    ensures forall i :: 0 <= i < |rows| && PathOf(rows[i]).Some? && PathOf(rows[i]).value != "" ==>
      PathOf(rows[i]).value in r
    ensures forall p :: p in r ==>
      p != "" && !Contains(p, Separator) && exists i :: 0 <= i < |rows| && PathOf(rows[i]) == Some(p)
  {
    forall i | 1 <= i < |rows|
      ensures rows[i] == rows[1..][i - 1]
    {
    }
    forall p | p in rest
      ensures exists i :: 0 <= i < |rows| && PathOf(rows[i]) == Some(p)
    {
      var k :| 0 <= k < |rows| - 1 && PathOf(rows[1..][k]) == Some(p);
      assert rows[k + 1] == rows[1..][k];
    }
  }

  /** The referenced paths for a successful table read; `null` data gives none (the `|| []`
      of line 47). */
  function Referenced(rows: Option<seq<Option<string>>>): (r: set<string>)
    ensures forall p :: p in r <==>
      rows.Some? && p != "" && exists i :: 0 <= i < |rows.value| && PathOf(rows.value[i]) == Some(p)
  {
    match rows
    case None => {}
    case Some(rs) => ValidPaths(rs)
  }

  // ---------------------------------------------------------------------------------------
  // Selection

  /** A listed file is an orphan when no row refers to it and it is not the placeholder. */
  predicate Orphan(f: FileObject, referenced: set<string>) {
    f.name !in referenced && f.name != Placeholder
  }

  /** `filesToDelete` (lines 68-70): the orphans among the listed files, in listing order. */
  function Selected(files: seq<FileObject>, referenced: set<string>): (r: seq<FileObject>)
    ensures |r| <= |files|
    ensures forall f :: f in r ==> f in files && f.name !in referenced && f.name != Placeholder
    ensures forall f :: f in files && f.name !in referenced && f.name != Placeholder ==> f in r
  {
    if files == [] then []
    else (if Orphan(files[0], referenced) then [files[0]] else []) + Selected(files[1..], referenced)
  }

  /** Selection is an order-preserving filter: selecting from a concatenation selects from each
      part and keeps the parts in order. */
  lemma {:induction false} SelectedAppend(a: seq<FileObject>, b: seq<FileObject>, referenced: set<string>)
    ensures Selected(a + b, referenced) == Selected(a, referenced) + Selected(b, referenced)
  {
    if a == [] {
      assert a + b == b;
    } else {
      assert (a + b)[1..] == a[1..] + b;
      SelectedAppend(a[1..], b, referenced);
    }
  }

  /** A listing made only of orphans is selected whole. */
  lemma {:induction false} SelectedAllOrphans(files: seq<FileObject>, referenced: set<string>)
    requires forall f :: f in files ==> Orphan(f, referenced)
    ensures Selected(files, referenced) == files
  {
    if files != [] {
      assert files[0] in files;
      SelectedAllOrphans(files[1..], referenced);
    }
  }

  /** A listing without orphans selects nothing. */
  lemma {:induction false} SelectedNoOrphans(files: seq<FileObject>, referenced: set<string>)
    requires forall f :: f in files ==> !Orphan(f, referenced)
    ensures Selected(files, referenced) == []
  {
    if files != [] {
      assert files[0] in files;
      SelectedNoOrphans(files[1..], referenced);
    }
  }

  /** Selecting again from a selection changes nothing. */
  lemma SelectedTwice(files: seq<FileObject>, referenced: set<string>)
    ensures Selected(Selected(files, referenced), referenced) == Selected(files, referenced)
  {
    SelectedAllOrphans(Selected(files, referenced), referenced);
  }

  /** `pathsToDelete` (line 89): the names of the selected files, in order. */
  function Names(files: seq<FileObject>): (r: seq<string>)
    ensures |r| == |files|
    ensures forall k :: 0 <= k < |files| ==> r[k] == files[k].name
  {
    if files == [] then [] else [files[0].name] + Names(files[1..])
  }

  // ---------------------------------------------------------------------------------------
  // One invocation

  /** The request handler of lines 26-125. The remove reply is consulted only when the remove
      call is made; the listing only when the table read succeeded. */
  function HandleCleanup(db: DbRead, listing: Listing, remove: RemoveReply): (run: Run)
    // a failed read aborts before any removal, with status 500
    ensures db.DbFailed? || listing.ListFailed? ==>
      run.removeRequest.None? && run.response.status == 500
    ensures db.DbRows? && listing.Listed? ==>
      var referenced := Referenced(db.rows);
      var files := match listing.files case None => [] case Some(fs) => fs;
      var selected := Selected(files, referenced);
      // nothing to do: no remove call, and the counts are reported
      && (selected == [] ==>
            run.removeRequest.None? &&
            run.response.status == 200 &&
            run.response.body.NothingToClean? &&
            run.response.body.validFiles == |referenced| &&
            run.response.body.totalFiles == |files|)
      // otherwise exactly the selected names, in listing order, go to the remove call
      && (selected != [] ==>
            && run.removeRequest == Some(Names(selected))
            && (remove.RemoveFailed? ==> run.response.status == 500)
            && (remove.RemoveOk? ==>
                  run.response.status == 200 &&
                  run.response.body.Cleaned? &&
                  run.response.body.validFiles == |referenced| &&
                  run.response.body.deletedFiles == |selected| &&
                  run.response.body.deletedPaths == Names(selected)))
  {
    match db
    case DbFailed(m) => Run(None, Response(500, ErrorBody("DB 조회 실패: " + m)))
    case DbRows(rows) =>
      var referenced := Referenced(rows);
      match listing
      case ListFailed(m) => Run(None, Response(500, ErrorBody("스토리지 목록 조회 실패: " + m)))
      case Listed(data) =>
        var files := match data case None => [] case Some(fs) => fs;
        var selected := Selected(files, referenced);
        if |selected| == 0 then
          Run(None, Response(200, NothingToClean("정리할 파일이 없습니다.", |referenced|, |files|)))
        else
          var paths := Names(selected);
          match remove
          case RemoveFailed(m) => Run(Some(paths), Response(500, ErrorBody("파일 삭제 실패: " + m)))
          case RemoveOk =>
            Run(Some(paths), Response(200, Cleaned("스토리지 정리 완료", |referenced|, |paths|, paths)))
  }

  /** No name handed to the remove call is referenced by a row or is the placeholder. */
  lemma NeverRemovesReferenced(db: DbRead, listing: Listing, remove: RemoveReply)
    requires HandleCleanup(db, listing, remove).removeRequest.Some?
    ensures db.DbRows? && listing.Listed?
    ensures forall p :: p in HandleCleanup(db, listing, remove).removeRequest.value ==>
      p !in Referenced(db.rows) && p != Placeholder
  {
    var files := match listing.files case None => [] case Some(fs) => fs;
    var selected := Selected(files, Referenced(db.rows));
    forall p | p in Names(selected)
      ensures p !in Referenced(db.rows) && p != Placeholder
    {
      var k :| 0 <= k < |Names(selected)| && Names(selected)[k] == p;
      assert selected[k] in selected;
    }
  }

  // ---------------------------------------------------------------------------------------
  // The bucket across runs

  /** The names a listing shows, as a set. */
  function NameSet(files: seq<FileObject>): (r: set<string>)
    ensures forall f :: f in files ==> f.name in r
    ensures forall p :: p in r ==> exists f :: f in files && f.name == p
  {
    if files == [] then {} else {files[0].name} + NameSet(files[1..])
  }

  /** A listing of `bucket` as the one call returns it: distinct names of the bucket, as many
      as the bucket holds up to the limit. Their order is the backend's. */
  ghost predicate ListingOf(files: seq<FileObject>, bucket: set<string>) {
    && DistinctNames(files)
    && (forall f :: f in files ==> f.name in bucket)
    && |files| == if |bucket| < ListLimit then |bucket| else ListLimit
  }

  /** The bucket after the run: a successful remove call takes the requested names out. */
  function BucketAfter(bucket: set<string>, run: Run): (r: set<string>)
    ensures r <= bucket
    ensures run.removeRequest.Some? ==> forall p :: p in run.removeRequest.value ==> p !in r
    ensures forall p :: p in bucket && (run.removeRequest.None? || p !in run.removeRequest.value) ==> p in r
  {
    match run.removeRequest
    case None => bucket
    case Some(paths) => bucket - (set p | p in paths)
  }

  /** The names of a listing are pairwise different. */
  predicate DistinctNames(files: seq<FileObject>) {
    forall i, j :: 0 <= i < j < |files| ==> files[i].name != files[j].name
  }

  /** Distinct names fill a set as large as the listing. */
  lemma {:induction false} DistinctNameCount(files: seq<FileObject>)
    requires DistinctNames(files)
    ensures |NameSet(files)| == |files|
  {
    if files != [] {
      DistinctTail(files);
      DistinctNameCount(files[1..]);
      HeadNotInTail(files);
    }
  }

  /** Dropping the first file keeps the names distinct. */
  lemma DistinctTail(files: seq<FileObject>)
    requires files != [] && DistinctNames(files)
    ensures DistinctNames(files[1..])
  {
    var rest := files[1..];
    forall i, j | 0 <= i < j < |rest|
      ensures rest[i].name != rest[j].name
    {
      assert rest[i] == files[i + 1] && rest[j] == files[j + 1];
    }
  }

  /** With distinct names, the first file's name is not among the others'. */
  lemma HeadNotInTail(files: seq<FileObject>)
    requires files != [] && DistinctNames(files)
    ensures files[0].name !in NameSet(files[1..])
  {
    var rest := files[1..];
    forall f | f in rest
      ensures f.name != files[0].name
    {
      var j :| 0 <= j < |rest| && rest[j] == f;
      assert rest[j] == files[j + 1];
    }
  }

  /** A listing of a bucket within the limit shows every name of the bucket. */
  lemma CompleteListing(files: seq<FileObject>, bucket: set<string>)
    requires ListingOf(files, bucket) && |bucket| <= ListLimit
    ensures NameSet(files) == bucket
  {
    DistinctNameCount(files);
    var listed := NameSet(files);
    assert listed <= bucket;
    assert listed * bucket == listed && listed + bucket == bucket;
    assert |bucket - listed| == 0;
  }

  /** After a successful run, a second run over the same table never selects a file the first
      run listed: each such file was referenced, the placeholder, or removed. */
  lemma SecondRunSkipsFirstListing(
    rows: Option<seq<Option<string>>>, bucket: set<string>,
    first: seq<FileObject>, second: seq<FileObject>)
    requires ListingOf(first, bucket)
    requires ListingOf(second, BucketAfter(bucket, HandleCleanup(DbRows(rows), Listed(Some(first)), RemoveOk)))
    ensures forall f :: f in Selected(second, Referenced(rows)) ==> f.name !in NameSet(first)
  {
    var referenced := Referenced(rows);
    var run := HandleCleanup(DbRows(rows), Listed(Some(first)), RemoveOk);
    var selected := Selected(first, referenced);
    forall g | g in first && Orphan(g, referenced)
      ensures g.name !in BucketAfter(bucket, run)
    {
      assert g in selected;
      var k :| 0 <= k < |selected| && selected[k] == g;
      assert Names(selected)[k] == g.name;
    }
  }

  /** Idempotence: when the bucket fits in one listing, a second run after a successful one,
      over the same table, selects nothing and so makes no remove call. */
  lemma SecondRunSelectsNothing(
    rows: Option<seq<Option<string>>>, bucket: set<string>,
    first: seq<FileObject>, second: seq<FileObject>, remove: RemoveReply)
    requires |bucket| <= ListLimit
    requires ListingOf(first, bucket)
    requires ListingOf(second, BucketAfter(bucket, HandleCleanup(DbRows(rows), Listed(Some(first)), RemoveOk)))
    ensures Selected(second, Referenced(rows)) == []
    ensures HandleCleanup(DbRows(rows), Listed(Some(second)), remove).removeRequest.None?
  {
    CompleteListing(first, bucket);
    SecondRunSkipsFirstListing(rows, bucket, first, second);
    SelectedNoOrphans(second, Referenced(rows));
  }
}
