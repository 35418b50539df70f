/** The per-book logic of `GutenbergHarvester`, shared by the German
    (Datasets/Gutenberg/main.py) and the English (Dataset/Language/downloadGutenberg.py)
    harvester: mirror URLs, the archive verdict, mirror fallback, bounded retries
    with the processed/failed bookkeeping, and the extract-normalise-write step.

    The file system is a value: `staging` maps a book id to the archive stored as
    `downloads/<id>.zip`, `extracted` maps a member name to the text of
    `extracted/<name>`, and `output` maps a book id to the text written to
    `<output_dir>/<id>.txt`.  The network is a function from the round number and
    the URL to the response. */
module Harvester {
  import opened Text

  const Mirrors: seq<string> := [
    "https://www.gutenberg.org/files",
    "http://aleph.gutenberg.org",
    "http://www.gutenberg.org/cache/epub"
  ]

  /** Rounds of `download_with_mirrors` per book. */
  const MaxRetries: nat := 3

  /** Smallest response body, in bytes, worth writing to disk. */
  const MinContent: nat := 100

  // ---------------------------------------------------------------------------
  // Mirror URLs

  function Singles(s: string): (r: seq<string>)
    ensures |r| == |s|
    ensures forall k :: 0 <= k < |s| ==> r[k] == [s[k]]
  {
    if |s| == 0 then [] else [[s[0]]] + Singles(s[1..])
  }

  /** The `id_parts` path: every character of the id but the last, joined by "/". */
  function IdParts(id: string): string
  {
    if |id| <= 1 then "" else Join(Singles(id[..|id| - 1]), "/")
  }

  lemma JoinSinglesShape(s: string)
    ensures var r := Join(Singles(s), "/");
      && |r| == (if |s| == 0 then 0 else 2 * |s| - 1)
      && (forall k :: 0 <= k < |s| ==> r[2 * k] == s[k])
      && (forall k :: 0 <= k < |s| - 1 ==> r[2 * k + 1] == '/')
  {
    JoinSinglesLength(s);
    JoinSinglesChars(s);
    JoinSinglesSlashes(s);
  }

  lemma {:induction false} JoinSinglesLength(s: string)
    ensures |Join(Singles(s), "/")| == if |s| == 0 then 0 else 2 * |s| - 1
  {
    if |s| > 1 {
      JoinSinglesLength(s[1..]);
      assert Singles(s)[1..] == Singles(s[1..]);
    }
  }

  /** The split of `Join(Singles(s), "/")` into its head and tail. */
  lemma JoinSinglesCons(s: string)
    requires |s| > 1
    ensures Join(Singles(s), "/") == [s[0]] + "/" + Join(Singles(s[1..]), "/")
  {
    assert Singles(s)[1..] == Singles(s[1..]);
  }

  lemma {:induction false} JoinSinglesChars(s: string)
    ensures forall k :: 0 <= k < |s| ==> |Join(Singles(s), "/")| > 2 * k && Join(Singles(s), "/")[2 * k] == s[k]
  {
    JoinSinglesLength(s);
    if |s| > 1 {
      JoinSinglesChars(s[1..]);
      JoinSinglesCons(s);
      var tail := Join(Singles(s[1..]), "/");
      var r := Join(Singles(s), "/");
      forall k | 0 <= k < |s| ensures |r| > 2 * k && r[2 * k] == s[k] {
        if k > 0 {
          var k1 := k - 1;
          assert r[2 * k] == tail[2 * k1];
          assert s[k] == s[1..][k1];
        }
      }
    }
  }

  lemma {:induction false} JoinSinglesSlashes(s: string)
    ensures forall k :: 0 <= k < |s| - 1 ==> |Join(Singles(s), "/")| > 2 * k + 1 && Join(Singles(s), "/")[2 * k + 1] == '/'
  {
    JoinSinglesLength(s);
    if |s| > 1 {
      JoinSinglesSlashes(s[1..]);
      JoinSinglesCons(s);
      var tail := Join(Singles(s[1..]), "/");
      var r := Join(Singles(s), "/");
      forall k | 0 <= k < |s| - 1 ensures |r| > 2 * k + 1 && r[2 * k + 1] == '/' {
        if k > 0 {
          var k1 := k - 1;
          assert r[2 * k + 1] == tail[2 * k1 + 1];
        }
      }
    }
  }

  /** The digit path of a book id: empty for ids of one character or none,
      otherwise the id's characters but the last with "/" between them. */
  lemma IdPartsShape(id: string)
    ensures |id| <= 1 ==> IdParts(id) == ""
    ensures |id| >= 2 ==> |IdParts(id)| == 2 * |id| - 3
    ensures forall k :: 0 <= k < |id| - 1 ==> IdParts(id)[2 * k] == id[k]
    ensures forall k :: 0 <= k < |id| - 2 ==> IdParts(id)[2 * k + 1] == '/'
  {
    if |id| >= 2 {
      JoinSinglesShape(id[..|id| - 1]);
    }
  }

  function DigitPathUrl(mirror: string, id: string): string
  {
    mirror + "/" + IdParts(id) + "/" + id + "/" + id + ".zip"
  }

  function PgUrl(mirror: string, id: string): string
  {
    mirror + "/" + id + "/pg" + id + ".txt.utf8.zip"
  }

  function MirrorUrlsFrom(mirrors: seq<string>, id: string): (r: seq<string>)
    ensures |r| == 2 * |mirrors|
    ensures forall k :: 0 <= k < |mirrors| ==> r[2 * k] == DigitPathUrl(mirrors[k], id) && r[2 * k + 1] == PgUrl(mirrors[k], id)
  {
    if |mirrors| == 0 then []
    else
      var rest := MirrorUrlsFrom(mirrors[1..], id);
      var r := [DigitPathUrl(mirrors[0], id), PgUrl(mirrors[0], id)] + rest;
      MirrorUrlsCons(mirrors, id, rest, r);
      r
  }

  lemma MirrorUrlsCons(mirrors: seq<string>, id: string, rest: seq<string>, r: seq<string>)
    requires |mirrors| > 0 && |rest| == 2 * (|mirrors| - 1)
    requires forall k :: 0 <= k < |mirrors| - 1 ==>
               rest[2 * k] == DigitPathUrl(mirrors[1..][k], id) && rest[2 * k + 1] == PgUrl(mirrors[1..][k], id)
    requires r == [DigitPathUrl(mirrors[0], id), PgUrl(mirrors[0], id)] + rest
    ensures forall k :: 0 <= k < |mirrors| ==> r[2 * k] == DigitPathUrl(mirrors[k], id) && r[2 * k + 1] == PgUrl(mirrors[k], id)
  {
    forall k | 0 <= k < |mirrors|
      ensures r[2 * k] == DigitPathUrl(mirrors[k], id) && r[2 * k + 1] == PgUrl(mirrors[k], id)
    {
      if k > 0 {
        var k1 := k - 1;
        assert mirrors[k] == mirrors[1..][k1];
        assert r[2 * k] == rest[2 * k1];
        assert r[2 * k + 1] == rest[2 * k1 + 1];
      }
    }
  }

  /** `generate_mirror_urls`: two URLs per mirror, mirror by mirror, the digit-path
      form first. */
  function MirrorUrls(id: string): (r: seq<string>)
    ensures r == [DigitPathUrl(Mirrors[0], id), PgUrl(Mirrors[0], id),
                  DigitPathUrl(Mirrors[1], id), PgUrl(Mirrors[1], id),
                  DigitPathUrl(Mirrors[2], id), PgUrl(Mirrors[2], id)]
  {
    MirrorUrlsFrom(Mirrors, id)
  }

  /** Every mirror URL names a ".zip" file. */
  lemma MirrorUrlsAreZips(id: string)
    ensures forall k :: 0 <= k < |MirrorUrls(id)| ==> EndsWith(MirrorUrls(id)[k], ".zip")
  {
    var r := MirrorUrls(id);
    UrlsAreZips(Mirrors[0], id);
    UrlsAreZips(Mirrors[1], id);
    UrlsAreZips(Mirrors[2], id);
    assert forall k :: 0 <= k < 6 ==> r[k] in {DigitPathUrl(Mirrors[0], id), PgUrl(Mirrors[0], id),
                                               DigitPathUrl(Mirrors[1], id), PgUrl(Mirrors[1], id),
                                               DigitPathUrl(Mirrors[2], id), PgUrl(Mirrors[2], id)};
  }

  lemma UrlsAreZips(m: string, id: string)
    ensures EndsWith(DigitPathUrl(m, id), ".zip") && EndsWith(PgUrl(m, id), ".zip")
  {
    EndsWithAppended(m + "/" + IdParts(id) + "/" + id + "/" + id, ".zip");
    EndsWithAppended(m + "/" + id + "/pg" + id + ".txt.utf8", ".zip");
  }

  /** The example in the source's comment: book 1234 on the first mirror. */
  lemma MirrorUrlsExample()
    ensures MirrorUrls("1234")[0] == "https://www.gutenberg.org/files/1/2/3/1234/1234.zip"
    ensures MirrorUrls("1234")[5] == "http://www.gutenberg.org/cache/epub/1234/pg1234.txt.utf8.zip"
  {
    DigitPathExample();
    PgExample();
  }

  lemma DigitPathExample()
    ensures DigitPathUrl(Mirrors[0], "1234") == "https://www.gutenberg.org/files/1/2/3/1234/1234.zip"
  {
    IdPartsExample();
  }

  lemma PgExample()
    ensures PgUrl(Mirrors[2], "1234") == "http://www.gutenberg.org/cache/epub/1234/pg1234.txt.utf8.zip"
  {
  }

  lemma IdPartsExample()
    ensures IdParts("1234") == "1/2/3"
  {
    assert "1234"[..3] == "123";
    assert Singles("123") == ["1", "2", "3"];
    assert Join(["3"], "/") == "3";
    assert Join(["2", "3"], "/") == "2/3";
  }

  /** `url.split('/')[-2]`: the second-to-last path segment; a URL without "/"
      has a single segment and the lookup raises. */
  function BookIdOf(url: string): (r: Option<string>)
    ensures r.None? <==> '/' !in url
    ensures r.Some? ==> '/' !in r.value
  {
    var parts := Split(url, '/');
    SplitJoin(url, '/');
    if |parts| >= 2 then Some(parts[|parts| - 2])
    else
      assert Join(parts, "/") == parts[0];
      assert forall j :: 0 <= j < |parts[0]| ==> parts[0][j] != '/';
      None
  }

  // ---------------------------------------------------------------------------
  // Archives and their verdict

  /** One archive member: its name, its recorded size and the text it decodes to. */
  datatype Member = Member(name: string, size: nat, text: string)

  /** What `zipfile` makes of a file: not a zip at all, a zip whose `testzip`
      reports the first bad member (or none), or a file whose reading raises. */
  datatype Archive =
    | NotAZip
    | Unreadable(reason: string)
    | Zip(members: seq<Member>, firstBad: Option<string>)

  /** `(is_valid, error_message)` of `validate_zip_file`. */
  datatype Verdict = Verdict(valid: bool, message: Option<string>)

  predicate IsTxt(m: Member)
  {
    EndsWith(m.name, ".txt")
  }

  function TxtMembers(members: seq<Member>): (r: seq<Member>)
    ensures forall k :: 0 <= k < |r| ==> IsTxt(r[k]) && r[k] in members
    ensures forall m :: m in members && IsTxt(m) ==> m in r
    ensures |r| <= |members|
  {
    if |members| == 0 then []
    else if IsTxt(members[0]) then [members[0]] + TxtMembers(members[1..])
    else TxtMembers(members[1..])
  }

  /** `getinfo(name).file_size`: the size recorded for the last entry with that name. */
  function SizeOf(members: seq<Member>, name: string): nat
  {
    if |members| == 0 then 0
    else if members[|members| - 1].name == name then members[|members| - 1].size
    else SizeOf(members[..|members| - 1], name)
  }

  /** The first text member, in name-list order, whose recorded size is zero. */
  function FirstEmpty(members: seq<Member>, txt: seq<Member>): (r: Option<Member>)
    ensures r.None? <==> forall k :: 0 <= k < |txt| ==> SizeOf(members, txt[k].name) > 0
    ensures r.Some? ==> r.value in txt && SizeOf(members, r.value.name) == 0
  {
    if |txt| == 0 then None
    else if SizeOf(members, txt[0].name) == 0 then Some(txt[0])
    else
      var r := FirstEmpty(members, txt[1..]);
      assert forall k :: 1 <= k < |txt| ==> txt[k] == txt[1..][k - 1];
      r
  }

  ghost predicate GoodArchive(a: Archive)
  {
    && a.Zip?
    && a.firstBad.None?
    && |TxtMembers(a.members)| > 0
    && forall m :: m in TxtMembers(a.members) ==> SizeOf(a.members, m.name) > 0
  }

  /** The judgement of `validate_zip_file` on an archive stored at `path`. */
  function CheckArchive(a: Archive, path: string): (v: Verdict)
    ensures v.valid <==> GoodArchive(a)
    ensures v.valid <==> v.message.None?
    ensures a.NotAZip? ==> v.message == Some("Invalid ZIP file: " + path)
    ensures a.Zip? && a.firstBad.Some? ==>
              v.message == Some("Corrupt ZIP file " + path + ": First bad file is " + a.firstBad.value)
    ensures a.Zip? && a.firstBad.None? && |TxtMembers(a.members)| == 0 ==>
              v.message == Some("No text files found in " + path)
  {
    match a
    case NotAZip => Verdict(false, Some("Invalid ZIP file: " + path))
    case Unreadable(reason) => Verdict(false, Some("Error validating ZIP file " + path + ": " + reason))
    case Zip(members, bad) =>
      if bad.Some? then Verdict(false, Some("Corrupt ZIP file " + path + ": First bad file is " + bad.value))
      else
        var txt := TxtMembers(members);
        if |txt| == 0 then Verdict(false, Some("No text files found in " + path))
        else
          match FirstEmpty(members, txt)
          case Some(m) => Verdict(false, Some("Empty text file found in " + path + ": " + m.name))
          case None =>
            assert forall m :: m in txt ==> SizeOf(members, m.name) > 0 by {
              forall m | m in txt ensures SizeOf(members, m.name) > 0 {
                var k :| 0 <= k < |txt| && txt[k] == m;
              }
            }
            Verdict(true, None)
  }

  /** `downloads/<id>.zip` as the messages print it. */
  function ZipPath(id: string): string
  {
    "downloads/" + id + ".zip"
  }

  /** `validate_zip_file(zip_path, delete_if_invalid)` on the staging directory:
      the verdict and the directory afterwards.  A missing file fails in
      `zipfile` and takes the generic error path. */
  function ValidateZipFile(staging: map<string, Archive>, id: string, deleteIfInvalid: bool)
    : (r: (Verdict, map<string, Archive>))
    ensures r.0.valid <==> id in staging && GoodArchive(staging[id])
    ensures r.0.valid <==> r.0.message.None?
    ensures r.1 == if deleteIfInvalid && !r.0.valid then staging - {id} else staging
  {
    var v :=
      if id in staging then CheckArchive(staging[id], ZipPath(id))
      else Verdict(false, Some("Error validating ZIP file " + ZipPath(id) + ": no such file"));
    (v, if deleteIfInvalid && !v.valid then staging - {id} else staging)
  }

  // ---------------------------------------------------------------------------
  // Mirror fallback

  /** The outcome of one GET: a timeout, any other exception, or an HTTP response
      with its status, its body length in bytes and the archive the body is. */
  datatype Response =
    | TimedOut
    | Failed
    | Http(status: int, size: nat, archive: Archive)

  /** The body is written to `downloads/<id>.zip` (and then validated). */
  predicate Written(r: Response)
  {
    r.Http? && r.status == 200 && r.size >= MinContent
  }

  /** The candidate the fallback loop stops at. */
  ghost predicate Acceptable(r: Response)
  {
    Written(r) && GoodArchive(r.archive)
  }

  datatype FetchResult =
    | Fetched(url: string)
    | AllFailed(message: string)
    | NoBookId

  /** What one call of `download_with_mirrors` did: its result, the staging
      directory afterwards, and how many candidates it requested. */
  datatype Attempt = Attempt(result: FetchResult, staging: map<string, Archive>, tried: nat)

  function Candidates(url: string, id: string): (r: seq<string>)
    ensures |r| == 7 && r[0] == url && r[1..] == MirrorUrls(id)
  {
    [url] + MirrorUrls(id)
  }

  /** The loop over `urls_to_try` from index `i` on. */
  function TryFrom(id: string, cands: seq<string>, fetch: string -> Response, i: nat,
                   staging: map<string, Archive>): (a: Attempt)
    requires i <= |cands|
    ensures a.result.Fetched? || a.result.AllFailed?
    ensures a.result.AllFailed? ==> a.result.message == "All download attempts failed for book " + id
    decreases |cands| - i
  {
    if i == |cands| then Attempt(AllFailed("All download attempts failed for book " + id), staging, 0)
    else
      var resp := fetch(cands[i]);
      if Written(resp) && CheckArchive(resp.archive, ZipPath(id)).valid then
        Attempt(Fetched(cands[i]), staging[id := resp.archive], 1)
      else
        var rest := TryFrom(id, cands, fetch, i + 1, if Written(resp) then staging - {id} else staging);
        rest.(tried := rest.tried + 1)
  }

  /** The candidate that succeeds is the first acceptable one; the archive
      stored is its body and every candidate up to it was requested. */
  lemma {:induction false} TryFromFetched(id: string, cands: seq<string>, fetch: string -> Response, i: nat,
                                          staging: map<string, Archive>)
    requires i <= |cands|
    ensures var a := TryFrom(id, cands, fetch, i, staging);
      && (a.result.Fetched? <==> exists j :: i <= j < |cands| && Acceptable(fetch(cands[j])))
      && (a.result.Fetched? ==>
            exists j :: i <= j < |cands| && a.result.url == cands[j] && Acceptable(fetch(cands[j]))
              && (forall k :: i <= k < j ==> !Acceptable(fetch(cands[k])))
              && a.tried == j - i + 1 && a.staging == staging[id := fetch(cands[j]).archive])
  {
    TryFromFound(id, cands, fetch, i, staging);
    if TryFrom(id, cands, fetch, i, staging).result.Fetched? {
      var j := TryFromFirst(id, cands, fetch, i, staging);
    }
  }

  lemma {:induction false} TryFromFound(id: string, cands: seq<string>, fetch: string -> Response, i: nat,
                                        staging: map<string, Archive>)
    requires i <= |cands|
    ensures TryFrom(id, cands, fetch, i, staging).result.Fetched? <==>
              exists j :: i <= j < |cands| && Acceptable(fetch(cands[j]))
    decreases |cands| - i
  {
    if i < |cands| {
      var resp := fetch(cands[i]);
      if !Acceptable(resp) {
        var next := if Written(resp) then staging - {id} else staging;
        TryFromFound(id, cands, fetch, i + 1, next);
        assert forall j :: i <= j < |cands| && Acceptable(fetch(cands[j])) ==> i + 1 <= j;
      }
    }
  }

  /** The candidate the loop stops at is the first acceptable one. */
  lemma {:induction false} TryFromFirst(id: string, cands: seq<string>, fetch: string -> Response, i: nat,
                                        staging: map<string, Archive>) returns (j: nat)
    requires i <= |cands| && TryFrom(id, cands, fetch, i, staging).result.Fetched?
    ensures var a := TryFrom(id, cands, fetch, i, staging);
      && i <= j < |cands| && a.result.url == cands[j] && Acceptable(fetch(cands[j]))
      && (forall k :: i <= k < j ==> !Acceptable(fetch(cands[k])))
      && a.tried == j - i + 1 && a.staging == staging[id := fetch(cands[j]).archive]
    decreases |cands| - i
  {
    var resp := fetch(cands[i]);
    if Acceptable(resp) {
      j := i;
    } else {
      var next := if Written(resp) then staging - {id} else staging;
      j := TryFromFirst(id, cands, fetch, i + 1, next);
      assert next[id := fetch(cands[j]).archive] == staging[id := fetch(cands[j]).archive];
    }
  }

  lemma {:induction false} TryFromFailed(id: string, cands: seq<string>, fetch: string -> Response, i: nat,
                                         staging: map<string, Archive>)
    requires i <= |cands|
    ensures var a := TryFrom(id, cands, fetch, i, staging);
      a.result.AllFailed? ==>
        && a.tried == |cands| - i
        && a.staging == if exists j :: i <= j < |cands| && Written(fetch(cands[j])) then staging - {id} else staging
    decreases |cands| - i
  {
    if i < |cands| {
      var resp := fetch(cands[i]);
      if !Acceptable(resp) {
        var next := if Written(resp) then staging - {id} else staging;
        TryFromFailed(id, cands, fetch, i + 1, next);
        if Written(resp) {
          assert (staging - {id}) - {id} == staging - {id};
        }
      }
    }
  }

  /** `download_with_mirrors(url, zip_path)` for one round, `fetch` giving that
      round's responses: the primary URL first, then the six mirror URLs.  A URL
      without a book id raises before any request. */
  function DownloadWithMirrors(url: string, fetch: string -> Response, staging: map<string, Archive>): (a: Attempt)
    ensures BookIdOf(url).None? ==> a == Attempt(NoBookId, staging, 0)
    ensures BookIdOf(url).Some? ==> (a.result.Fetched? || a.result.AllFailed?) && 1 <= a.tried <= 7
  {
    match BookIdOf(url)
    case None => Attempt(NoBookId, staging, 0)
    case Some(id) =>
      TryFromTried(id, Candidates(url, id), fetch, 0, staging);
      TryFrom(id, Candidates(url, id), fetch, 0, staging)
  }

  lemma {:induction false} TryFromTried(id: string, cands: seq<string>, fetch: string -> Response, i: nat,
                                        staging: map<string, Archive>)
    requires i < |cands|
    ensures 1 <= TryFrom(id, cands, fetch, i, staging).tried <= |cands| - i
    decreases |cands| - i
  {
    var resp := fetch(cands[i]);
    if !(Written(resp) && CheckArchive(resp.archive, ZipPath(id)).valid) && i + 1 < |cands| {
      TryFromTried(id, cands, fetch, i + 1, if Written(resp) then staging - {id} else staging);
    }
  }

  /** A round fetches exactly when some candidate answers acceptably, and then it
      stops at the first such candidate, having requested it and the ones before,
      and stores its archive. */
  lemma DownloadWithMirrorsFetched(url: string, id: string, fetch: string -> Response, staging: map<string, Archive>)
    requires BookIdOf(url) == Some(id)
    ensures var a := DownloadWithMirrors(url, fetch, staging);
      var cands := Candidates(url, id);
      && (a.result.Fetched? <==> exists j :: 0 <= j < |cands| && Acceptable(fetch(cands[j])))
      && (a.result.Fetched? ==>
            exists j :: 0 <= j < |cands| && a.result.url == cands[j] && Acceptable(fetch(cands[j]))
              && (forall k :: 0 <= k < j ==> !Acceptable(fetch(cands[k])))
              && a.tried == j + 1 && a.staging == staging[id := fetch(cands[j]).archive])
  {
    TryFromFetched(id, Candidates(url, id), fetch, 0, staging);
  }

  /** A round that fetches nothing has requested all seven candidates, reports
      the book, and leaves no archive for it once any candidate's body was
      written. */
  lemma DownloadWithMirrorsFailed(url: string, id: string, fetch: string -> Response, staging: map<string, Archive>)
    requires BookIdOf(url) == Some(id)
    ensures var a := DownloadWithMirrors(url, fetch, staging);
      var cands := Candidates(url, id);
      a.result.AllFailed? ==>
        && a.result.message == "All download attempts failed for book " + id
        && a.tried == |cands|
        && a.staging == if exists j :: 0 <= j < |cands| && Written(fetch(cands[j])) then staging - {id} else staging
  {
    TryFromFailed(id, Candidates(url, id), fetch, 0, staging);
  }

  /** A round changes the staging directory only at `id`, and a round that
      fetches leaves a good archive there. */
  lemma DownloadWithMirrorsStaging(url: string, id: string, fetch: string -> Response, staging: map<string, Archive>)
    requires BookIdOf(url) == Some(id)
    ensures var a := DownloadWithMirrors(url, fetch, staging);
      && SameElsewhere(staging, a.staging, id)
      && (a.result.Fetched? ==> id in a.staging && GoodArchive(a.staging[id]))
  {
    DownloadWithMirrorsFetched(url, id, fetch, staging);
    DownloadWithMirrorsFailed(url, id, fetch, staging);
  }

  /** The primary URL that 404s does not stop a good mirror from being used. */
  lemma MirrorFallback(url: string, fetch: string -> Response, staging: map<string, Archive>, j: nat)
    requires BookIdOf(url).Some?
    requires 1 <= j < 7
    requires fetch(url).Http? && fetch(url).status == 404
    requires var cands := Candidates(url, BookIdOf(url).value);
      Acceptable(fetch(cands[j])) && forall k :: 1 <= k < j ==> !Acceptable(fetch(cands[k]))
    ensures DownloadWithMirrors(url, fetch, staging).result == Fetched(Candidates(url, BookIdOf(url).value)[j])
  {
    var cands := Candidates(url, BookIdOf(url).value);
    var a := DownloadWithMirrors(url, fetch, staging);
    DownloadWithMirrorsFetched(url, BookIdOf(url).value, fetch, staging);
    assert !Acceptable(fetch(cands[0]));
    assert a.result.Fetched?;
    var j' :| 0 <= j' < |cands| && a.result.url == cands[j'] && Acceptable(fetch(cands[j']))
                && (forall k :: 0 <= k < j' ==> !Acceptable(fetch(cands[k])));
    assert j' == j;
  }

  // ---------------------------------------------------------------------------
  // The store and the retry loop

  /** The harvester's sets and the three directories. */
  datatype Store = Store(
    processed: set<string>,
    failed: set<string>,
    staging: map<string, Archive>,
    extracted: map<string, string>,
    output: map<string, string>)

  /** What `download_book` reports: its return value, whether it raised before
      starting, how many rounds it ran and how many one-second pauses it took. */
  datatype Download = Download(ok: bool, raised: bool, rounds: nat, sleeps: nat)

  type Network = (nat, string) -> Response

  /** Round `k` of `download_with_mirrors` succeeds: some candidate answers
      acceptably. */
  ghost predicate RoundSucceeds(url: string, id: string, net: Network, k: nat)
  {
    AcceptableFrom(Candidates(url, id), net, k, 0)
  }

  /** Some candidate from index `j` on answers acceptably in round `k`. */
  ghost predicate AcceptableFrom(cands: seq<string>, net: Network, k: nat, j: nat)
    decreases |cands| - j
  {
    j < |cands| && (Acceptable(net(k, cands[j])) || AcceptableFrom(cands, net, k, j + 1))
  }

  lemma {:induction false} AcceptableFromExists(cands: seq<string>, net: Network, k: nat, j: nat)
    ensures AcceptableFrom(cands, net, k, j) <==> exists i :: j <= i < |cands| && Acceptable(net(k, cands[i]))
    decreases |cands| - j
  {
    if j < |cands| {
      AcceptableFromExists(cands, net, k, j + 1);
    }
  }

  /** The responses of round `k`. */
  function RoundFetch(net: Network, k: nat): string -> Response
  {
    (u: string) => net(k, u)
  }

  lemma RoundOutcome(url: string, id: string, net: Network, k: nat, staging: map<string, Archive>)
    requires BookIdOf(url) == Some(id)
    ensures var a := DownloadWithMirrors(url, RoundFetch(net, k), staging);
      (a.result.Fetched? <==> RoundSucceeds(url, id, net, k)) && (a.result.Fetched? || a.result.AllFailed?)
  {
    var cands := Candidates(url, id);
    assert forall j :: 0 <= j < |cands| ==> RoundFetch(net, k)(cands[j]) == net(k, cands[j]);
    AcceptableFromExists(cands, net, k, 0);
    DownloadWithMirrorsFetched(url, id, RoundFetch(net, k), staging);
  }

  /** One round: `download_with_mirrors` with round `k`'s responses, and whether it succeeded. */
  method Round(s: Store, url: string, id: string, net: Network, k: nat) returns (after: Store, fetched: bool)
    requires BookIdOf(url) == Some(id)
    ensures after == s.(staging := after.staging)
    ensures fetched <==> RoundSucceeds(url, id, net, k)
    ensures fetched ==> id in after.staging && GoodArchive(after.staging[id])
    ensures SameElsewhere(s.staging, after.staging, id)
  {
    var a := DownloadWithMirrors(url, RoundFetch(net, k), s.staging);
    RoundOutcome(url, id, net, k, s.staging);
    DownloadWithMirrorsStaging(url, id, RoundFetch(net, k), s.staging);
    after := s.(staging := a.staging);
    fetched := a.result.Fetched?;
  }

  /** Two staging directories agree on every book but `id`. */
  ghost predicate SameElsewhere(a: map<string, Archive>, b: map<string, Archive>, id: string)
  {
    forall x :: x != id ==> (x in a <==> x in b) && (x in a ==> a[x] == b[x])
  }

  lemma SameElsewhereTrans(a: map<string, Archive>, b: map<string, Archive>, c: map<string, Archive>, id: string)
    requires SameElsewhere(a, b, id) && SameElsewhere(b, c, id)
    ensures SameElsewhere(a, c, id)
  {
  }

  /** The `while retry_count < max_retries` loop of `download_book` for a book
      that is neither processed nor failed, with a one-second pause between rounds. */
  method Retry(s: Store, url: string, id: string, net: Network) returns (after: Store, d: Download)
    requires BookIdOf(url) == Some(id)
    ensures after.processed == s.processed && after.extracted == s.extracted && after.output == s.output
    ensures !d.raised && 1 <= d.rounds <= MaxRetries && d.sleeps == d.rounds - 1
    ensures d.ok <==> exists n :: 0 <= n < MaxRetries && RoundSucceeds(url, id, net, n)
    ensures d.ok ==> after.failed == s.failed && RoundSucceeds(url, id, net, d.rounds - 1)
                     && forall n :: 0 <= n < d.rounds - 1 ==> !RoundSucceeds(url, id, net, n)
    ensures d.ok ==> id in after.staging && GoodArchive(after.staging[id])
    ensures !d.ok ==> after.failed == s.failed + {id} && d.rounds == MaxRetries
    ensures SameElsewhere(s.staging, after.staging, id)
  {
    var fetched, rounds;
    after, fetched, rounds := Rounds(s, url, id, net);
    if fetched {
      d := Download(true, false, rounds, rounds - 1);
    } else {
      after := after.(failed := after.failed + {id});
      d := Download(false, false, rounds, rounds - 1);
    }
  }

  /** The rounds themselves: they stop at the first one that succeeds, or after
      the last. */
  method Rounds(s: Store, url: string, id: string, net: Network) returns (after: Store, fetched: bool, rounds: nat)
    requires BookIdOf(url) == Some(id)
    ensures after.processed == s.processed && after.failed == s.failed
    ensures after.extracted == s.extracted && after.output == s.output
    ensures 1 <= rounds <= MaxRetries
    ensures fetched ==> RoundSucceeds(url, id, net, rounds - 1) && id in after.staging && GoodArchive(after.staging[id])
    ensures !fetched ==> rounds == MaxRetries
    ensures forall n :: 0 <= n < (if fetched then rounds - 1 else rounds) ==> !RoundSucceeds(url, id, net, n)
    ensures SameElsewhere(s.staging, after.staging, id)
  {
    after := s;
    rounds := 0;
    while rounds < MaxRetries
      invariant rounds <= MaxRetries
      invariant after.processed == s.processed && after.failed == s.failed
      invariant after.extracted == s.extracted && after.output == s.output
      invariant forall n :: 0 <= n < rounds ==> !RoundSucceeds(url, id, net, n)
      invariant SameElsewhere(s.staging, after.staging, id)
    {
      var next, ok := Round(after, url, id, net, rounds);
      SameElsewhereTrans(s.staging, after.staging, next.staging, id);
      after := next;
      rounds := rounds + 1;
      if ok {
        return after, true, rounds;
      }
    }
    fetched := false;
  }

  /** `download_book(url)`: books already processed or failed are skipped, the
      others go through the retry loop. */
  method DownloadBook(s: Store, url: string, net: Network) returns (after: Store, d: Download)
    ensures after.processed == s.processed && after.extracted == s.extracted && after.output == s.output
    ensures d.raised <==> BookIdOf(url).None?
    ensures BookIdOf(url).None? ==> after == s && !d.ok && d.rounds == 0
    ensures BookIdOf(url).Some? && (BookIdOf(url).value in s.processed || BookIdOf(url).value in s.failed) ==>
              after == s && !d.ok && d.rounds == 0
    ensures BookIdOf(url).Some? && BookIdOf(url).value !in s.processed && BookIdOf(url).value !in s.failed ==>
              d.rounds >= 1 && (d.ok <==> exists n :: 0 <= n < MaxRetries && RoundSucceeds(url, BookIdOf(url).value, net, n))
    ensures s.failed <= after.failed
    ensures BookIdOf(url).Some? ==>
              var id := BookIdOf(url).value;
              && SameElsewhere(s.staging, after.staging, id)
              && (id in after.processed || id in after.failed || id in after.staging)
  {
    if BookIdOf(url).None? {
      return s, Download(false, true, 0, 0);
    }
    var id := BookIdOf(url).value;
    if id in s.processed || id in s.failed {
      return s, Download(false, false, 0, 0);
    }
    after, d := Retry(s, url, id, net);
  }

  /** A book whose every request times out never has a successful round, so the
      retries run out and it is recorded as failed. */
  lemma AllTimeoutsFail(url: string, id: string, net: Network)
    requires BookIdOf(url) == Some(id)
    requires forall n: nat, u: string :: net(n, u) == TimedOut
    ensures forall n: nat :: !RoundSucceeds(url, id, net, n)
  {
    forall n: nat ensures !RoundSucceeds(url, id, net, n) {
      AcceptableFromExists(Candidates(url, id), net, n, 0);
    }
  }

  // ---------------------------------------------------------------------------
  // Processing a downloaded archive

  /** `zf.extractall`: every member is written under its name, later ones over earlier ones. */
  function ExtractAll(ex: map<string, string>, members: seq<Member>): (r: map<string, string>)
    ensures r.Keys == ex.Keys + set m | m in members :: m.name
    decreases |members|
  {
    if |members| == 0 then ex
    else ExtractAll(ex[members[0].name := members[0].text], members[1..])
  }

  /** The names of the members from index `i` on. */
  function NamesFrom(ms: seq<Member>, i: nat): (r: set<string>)
    requires i <= |ms|
    ensures forall n :: n in r <==> exists k :: i <= k < |ms| && ms[k].name == n
    decreases |ms| - i
  {
    if i == |ms| then {} else {ms[i].name} + NamesFrom(ms, i + 1)
  }

  /** What the normaliser `norm` keeps of a member's text is worth writing:
      neither the text nor its normal form strips to the empty string. */
  predicate Usable(content: string, norm: string -> string)
  {
    !AllSpace(content) && !AllSpace(norm(content))
  }

  /** Text member `j` is still on disk when a loop started at `i` reaches it
      (no text member between `i` and `j` had the same name and removed the
      file) and its text is usable. */
  ghost predicate WritesAt(txt: seq<Member>, ex: map<string, string>, i: nat, j: nat, norm: string -> string)
    requires i <= j < |txt|
  {
    && txt[j].name in ex
    && (forall k :: i <= k < j ==> txt[k].name != txt[j].name)
    && Usable(ex[txt[j].name], norm)
  }

  /** Member `j` is the last one the loop writes. */
  ghost predicate LastWriteAt(txt: seq<Member>, ex: map<string, string>, i: nat, j: nat, norm: string -> string)
    requires i <= j < |txt|
  {
    WritesAt(txt, ex, i, j, norm) && forall k :: j < k < |txt| ==> !WritesAt(txt, ex, i, k, norm)
  }

  /** The `for txt_file in txt_files` loop from index `i` on: `out` is the text
      last written to `<book_id>.txt`, `None` while nothing was written; every
      visited member's file is removed. */
  function ProcessMembers(txt: seq<Member>, i: nat, ex: map<string, string>, out: Option<string>,
                          norm: string -> string): (r: (map<string, string>, Option<string>))
    requires i <= |txt|
    ensures r.0 == ex - NamesFrom(txt, i)
    decreases |txt| - i
  {
    if i == |txt| then (ex, out)
    else
      var m := txt[i];
      var out1 := if m.name in ex && Usable(ex[m.name], norm) then Some(norm(ex[m.name])) else out;
      var r := ProcessMembers(txt, i + 1, ex - {m.name}, out1, norm);
      assert (ex - {m.name}) - NamesFrom(txt, i + 1) == ex - NamesFrom(txt, i);
      r
  }

  /** Removing member `i`'s file is all that changes between the loop's view at
      `i` and at `i + 1`. */
  lemma WritesShift(txt: seq<Member>, ex: map<string, string>, i: nat, norm: string -> string)
    requires i < |txt|
    ensures forall j :: i < j < |txt| ==>
              (WritesAt(txt, ex - {txt[i].name}, i + 1, j, norm) <==> WritesAt(txt, ex, i, j, norm))
    ensures forall j :: i < j < |txt| && WritesAt(txt, ex, i, j, norm) ==>
              (ex - {txt[i].name})[txt[j].name] == ex[txt[j].name]
  {
  }

  /** The loop writes the normalised text of the last member it can write, and
      leaves `out` alone when it can write none. */
  lemma {:induction false} ProcessMembersLastWrite(txt: seq<Member>, i: nat, ex: map<string, string>,
                                                   out: Option<string>, norm: string -> string)
    requires i <= |txt|
    ensures (forall j :: i <= j < |txt| ==> !WritesAt(txt, ex, i, j, norm)) ==>
              ProcessMembers(txt, i, ex, out, norm).1 == out
    ensures forall j :: i <= j < |txt| && LastWriteAt(txt, ex, i, j, norm) ==>
              ProcessMembers(txt, i, ex, out, norm).1 == Some(norm(ex[txt[j].name]))
    decreases |txt| - i
  {
    if i < |txt| {
      var m := txt[i];
      var i1 := i + 1;
      var ex1 := ex - {m.name};
      var hit := m.name in ex && Usable(ex[m.name], norm);
      var out1 := if hit then Some(norm(ex[m.name])) else out;
      var r1 := ProcessMembers(txt, i1, ex1, out1, norm).1;
      assert ProcessMembers(txt, i, ex, out, norm).1 == r1;
      ProcessMembersLastWrite(txt, i1, ex1, out1, norm);
      WritesShift(txt, ex, i, norm);
      assert hit <==> WritesAt(txt, ex, i, i, norm);
      forall j | i <= j < |txt| && LastWriteAt(txt, ex, i, j, norm)
        ensures r1 == Some(norm(ex[txt[j].name]))
      {
        if j == i {
          forall k | i1 <= k < |txt| ensures !WritesAt(txt, ex1, i1, k, norm) {
            assert !WritesAt(txt, ex, i, k, norm);
          }
        } else {
          assert WritesAt(txt, ex1, i1, j, norm);
          forall k | j < k < |txt| ensures !WritesAt(txt, ex1, i1, k, norm) {
            assert !WritesAt(txt, ex, i, k, norm);
          }
          assert LastWriteAt(txt, ex1, i1, j, norm);
          assert ex1[txt[j].name] == ex[txt[j].name];
        }
      }
      if forall j :: i <= j < |txt| ==> !WritesAt(txt, ex, i, j, norm) {
        assert !hit;
        forall j | i1 <= j < |txt| ensures !WritesAt(txt, ex1, i1, j, norm) {
          assert !WritesAt(txt, ex, i, j, norm);
        }
      }
    }
  }

  /** A loop that can write something has a last member it writes. */
  lemma LastWriteExists(txt: seq<Member>, ex: map<string, string>, i: nat, j: nat, norm: string -> string)
    requires i <= j < |txt| && WritesAt(txt, ex, i, j, norm)
    ensures exists l :: j <= l < |txt| && LastWriteAt(txt, ex, i, l, norm)
    decreases |txt| - j
  {
    if !LastWriteAt(txt, ex, i, j, norm) {
      var k :| j < k < |txt| && WritesAt(txt, ex, i, k, norm);
      LastWriteExists(txt, ex, i, k, norm);
    }
  }

  /** `process_book(zip_path)` for the archive of book `id`, `norm` being
      `process_text`: an archive that fails validation is deleted and the book
      recorded as failed; a good one is extracted and its text members processed. */
  function ProcessBook(s: Store, id: string, norm: string -> string): (r: Store)
    ensures r.staging == s.staging - {id}
    ensures !(id in s.staging && GoodArchive(s.staging[id])) ==>
              r == s.(staging := s.staging - {id}, failed := s.failed + {id})
    ensures id in s.staging && GoodArchive(s.staging[id]) ==> r == ProcessArchive(s, id, s.staging[id].members, norm)
  {
    var v := ValidateZipFile(s.staging, id, true);
    if !v.0.valid then s.(staging := v.1, failed := s.failed + {id})
    else ProcessArchive(s, id, s.staging[id].members, norm)
  }

  /** The part of `process_book` after validation: extract every member, run the
      loop over the text members, record the book and delete its archive. */
  function ProcessArchive(s: Store, id: string, members: seq<Member>, norm: string -> string): (r: Store)
    ensures r.staging == s.staging - {id}
    ensures var out := ProcessMembers(TxtMembers(members), 0, ExtractAll(s.extracted, members), None, norm).1;
      out.Some? ==> id in r.output && r.output[id] == out.value
  {
    var pm := ProcessMembers(TxtMembers(members), 0, ExtractAll(s.extracted, members), None, norm);
    if pm.1.Some? then
      s.(staging := s.staging - {id}, extracted := pm.0, output := s.output[id := pm.1.value],
         processed := s.processed + {id})
    else
      s.(staging := s.staging - {id}, extracted := pm.0, failed := s.failed + {id})
  }

  /** Some text member of the archive writes usable text. */
  ghost predicate Yields(extracted: map<string, string>, members: seq<Member>, norm: string -> string)
  {
    var txt := TxtMembers(members);
    exists j :: 0 <= j < |txt| && WritesAt(txt, ExtractAll(extracted, members), 0, j, norm)
  }

  /** A book is recorded as processed exactly when some text member yields usable
      normalised text, and as failed otherwise.  Either way the archive is gone
      and every text member is removed from the extraction directory, while the
      archive's other members stay there. */
  lemma ProcessArchiveRecords(s: Store, id: string, members: seq<Member>, norm: string -> string)
    ensures var r := ProcessArchive(s, id, members, norm);
      && r.staging == s.staging - {id}
      && r.extracted == ExtractAll(s.extracted, members) - NamesFrom(TxtMembers(members), 0)
      && (Yields(s.extracted, members, norm) ==> r.processed == s.processed + {id} && r.failed == s.failed)
      && (!Yields(s.extracted, members, norm) ==>
            r.failed == s.failed + {id} && r.processed == s.processed && r.output == s.output)
  {
    var txt := TxtMembers(members);
    var ex := ExtractAll(s.extracted, members);
    ProcessMembersLastWrite(txt, 0, ex, None, norm);
    if Yields(s.extracted, members, norm) {
      var j :| 0 <= j < |txt| && WritesAt(txt, ex, 0, j, norm);
      LastWriteExists(txt, ex, 0, j, norm);
      var l :| j <= l < |txt| && LastWriteAt(txt, ex, 0, l, norm);
      assert ProcessMembers(txt, 0, ex, None, norm).1.Some?;
    }
  }

  /** The text written for a processed book is the normalised text of the last
      text member that yielded some. */
  lemma ProcessArchiveOutput(s: Store, id: string, members: seq<Member>, norm: string -> string) returns (j: nat)
    requires Yields(s.extracted, members, norm)
    ensures var r := ProcessArchive(s, id, members, norm);
      var txt := TxtMembers(members);
      var ex := ExtractAll(s.extracted, members);
      && j < |txt| && LastWriteAt(txt, ex, 0, j, norm)
      && id in r.output && r.output[id] == norm(ex[txt[j].name])
  {
    j := LastWriteOf(TxtMembers(members), ExtractAll(s.extracted, members), norm);
  }

  /** The loop's output when some member can be written. */
  lemma LastWriteOf(txt: seq<Member>, ex: map<string, string>, norm: string -> string) returns (l: nat)
    requires exists j :: 0 <= j < |txt| && WritesAt(txt, ex, 0, j, norm)
    ensures l < |txt| && LastWriteAt(txt, ex, 0, l, norm)
    ensures ProcessMembers(txt, 0, ex, None, norm).1 == Some(norm(ex[txt[l].name]))
  {
    ProcessMembersLastWrite(txt, 0, ex, None, norm);
    var j :| 0 <= j < |txt| && WritesAt(txt, ex, 0, j, norm);
    LastWriteExists(txt, ex, 0, j, norm);
    l :| j <= l < |txt| && LastWriteAt(txt, ex, 0, l, norm);
  }

  /** `Usable` is the pair of `strip()` checks the loop makes. */
  lemma UsableIsStripCheck(content: string, norm: string -> string)
    ensures Usable(content, norm) <==> Strip(content) != "" && Strip(norm(content)) != ""
  {
    StripEmptyIffAllSpace(content);
    StripEmptyIffAllSpace(norm(content));
  }

  /** The processed and failed sets are not kept disjoint: an archive left in the
      staging directory that turns out usable puts a book the retries had given up
      on into both sets. */
  lemma ProcessedAndFailedOverlap(s: Store, id: string, norm: string -> string)
    requires id in s.failed && id in s.staging && GoodArchive(s.staging[id])
    requires Yields(s.extracted, s.staging[id].members, norm)
    ensures id in ProcessBook(s, id, norm).processed && id in ProcessBook(s, id, norm).failed
  {
    ProcessArchiveRecords(s, id, s.staging[id].members, norm);
  }
}
