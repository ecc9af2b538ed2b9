/** The download handler of the file controller: a per-file ledger of distinct
    download fingerprints, a download counter, and a signed read URL. */
module Download {
  import opened Common
  import opened Records
  import opened Store
  import opened FileService

  /** How a template literal renders a possibly-undefined value. */
  function Interpolate(v: Option<string>): string
  {
    match v
    case None => "undefined"
    case Some(s) => s
  }

  /** The dedup key: client address and user agent joined by a dash; there is no
      day component, so one client counts once per file, ever. */
  function Fingerprint(ip: Option<string>, userAgent: Option<string>): string
  {
    Interpolate(ip) + "-" + Interpolate(userAgent)
  }

  /** Client addresses hold no dash (IPv4 and IPv6 notations use dots and colons),
      so a fingerprint names one address and one user agent: two requests share
      a fingerprint exactly when they share both. */
  lemma FingerprintSeparates(ip1: Option<string>, ua1: Option<string>, ip2: Option<string>, ua2: Option<string>)
    requires '-' !in Interpolate(ip1) && '-' !in Interpolate(ip2)
    ensures Fingerprint(ip1, ua1) == Fingerprint(ip2, ua2) <==>
              Interpolate(ip1) == Interpolate(ip2) && Interpolate(ua1) == Interpolate(ua2)
  {
    var a, b, c, d := Interpolate(ip1), Interpolate(ua1), Interpolate(ip2), Interpolate(ua2);
    var s := Fingerprint(ip1, ua1);
    if s == Fingerprint(ip2, ua2) {
      FirstDashEndsAddress(a, b);
      FirstDashEndsAddress(c, d);
      assert a == s[..|a|] == c;
      assert b == s[|a| + 1..] == d;
    }
  }

  predicate IsDash(ch: char)
  {
    ch == '-'
  }

  /** In a fingerprint whose address has no dash, the first dash ends the address. */
  lemma FirstDashEndsAddress(address: string, agent: string)
    requires '-' !in address
    ensures FirstIndex(address + "-" + agent, IsDash) == Some(|address|)
  {
    var s := address + "-" + agent;
    assert IsDash(s[|address|]);
    assert forall j :: 0 <= j < |address| ==> s[j] == address[j];
  }

  /** The ledger's invariant: one timestamp per fingerprint, no fingerprint twice. */
  predicate LedgerOk(f: FileRecord)
  {
    |f.downloadedBy| == |f.downloadedAt| && Distinct(f.downloadedBy)
  }

  /** The file record after a download with fingerprint `fp` at time `now`:
      unchanged for a known fingerprint, else the fingerprint and timestamp are
      appended and the counter rises by one. Nothing else changes. */
  function RecordDownload(f: FileRecord, fp: string, now: Time): (r: FileRecord)
    ensures fp in f.downloadedBy ==> r == f
    ensures fp !in f.downloadedBy ==>
              && r.downloadedBy == f.downloadedBy + [fp]
              && r.downloadedAt == f.downloadedAt + [now]
              && r.downloads == f.downloads + 1
    ensures r == f.(downloadedBy := r.downloadedBy, downloadedAt := r.downloadedAt, downloads := r.downloads)
    ensures fp in r.downloadedBy
  {
    if fp in f.downloadedBy then f
    else ApplyUpdate(f, LogDownload(f.downloadedBy + [fp], f.downloadedAt + [now]))
  }

  lemma RecordDownloadKeepsLedger(f: FileRecord, fp: string, now: Time)
    requires LedgerOk(f)
    ensures LedgerOk(RecordDownload(f, fp, now))
  {
    var r := RecordDownload(f, fp, now);
    if fp !in f.downloadedBy {
      forall i, j | 0 <= i < j < |r.downloadedBy| ensures r.downloadedBy[i] != r.downloadedBy[j] {
        if j == |f.downloadedBy| {
          assert f.downloadedBy[i] in f.downloadedBy;
        } else {
          assert r.downloadedBy[i] == f.downloadedBy[i] && r.downloadedBy[j] == f.downloadedBy[j];
        }
      }
    }
  }

  /** A repeat request with the same fingerprint, at any later time, changes nothing. */
  lemma RepeatDownloadIsFree(f: FileRecord, fp: string, t1: Time, t2: Time)
    ensures RecordDownload(RecordDownload(f, fp, t1), fp, t2) == RecordDownload(f, fp, t1)
  {
  }

  /** The record after a series of download requests `(fingerprint, time)`, in order. */
  function Replay(f: FileRecord, requests: seq<(string, Time)>): FileRecord
    decreases |requests|
  {
    if requests == [] then f
    else Replay(RecordDownload(f, requests[0].0, requests[0].1), requests[1..])
  }

  /** The fingerprints a series of requests carries. */
  function Fingerprints(requests: seq<(string, Time)>): set<string>
    decreases |requests|
  {
    if requests == [] then {} else {requests[0].0} + Fingerprints(requests[1..])
  }

  /** One request: the ledger gains its fingerprint, and the counter rises exactly
      when the fingerprint was new. */
  lemma RecordDownloadElements(f: FileRecord, fp: string, now: Time)
    ensures Elements(RecordDownload(f, fp, now).downloadedBy) == Elements(f.downloadedBy) + {fp}
    ensures RecordDownload(f, fp, now).downloads == f.downloads + (if fp in f.downloadedBy then 0 else 1)
  {
  }

  /** Set arithmetic for one step of the replay count: the counter `b` after the
      step against the counter `a` before it. */
  lemma NewFingerprintCount(fp: string, rest: set<string>, known: set<string>, a: int, b: int)
    requires b == a + (if fp in known then 0 else 1)
    ensures b + |rest - (known + {fp})| == a + |({fp} + rest) - known|
  {
    if fp in known {
      assert known + {fp} == known;
      assert ({fp} + rest) - known == rest - known;
    } else {
      assert ({fp} + rest) - known == {fp} + (rest - (known + {fp}));
    }
  }

  /** Over any series of requests the ledger stays consistent, gains exactly the
      fingerprints it did not hold, and the counter rises by their number. */
  lemma ReplayCountsDistinct(f: FileRecord, requests: seq<(string, Time)>)
    requires LedgerOk(f)
    ensures LedgerOk(Replay(f, requests))
    ensures Elements(Replay(f, requests).downloadedBy) == Elements(f.downloadedBy) + Fingerprints(requests)
    ensures Replay(f, requests).downloads == f.downloads + |Fingerprints(requests) - Elements(f.downloadedBy)|
  {
    ReplayKeepsLedger(f, requests);
    ReplayElements(f, requests);
    ReplayCount(f, requests);
  }

  lemma {:induction false} ReplayKeepsLedger(f: FileRecord, requests: seq<(string, Time)>)
    requires LedgerOk(f)
    ensures LedgerOk(Replay(f, requests))
    decreases |requests|
  {
    if requests != [] {
      RecordDownloadKeepsLedger(f, requests[0].0, requests[0].1);
      ReplayKeepsLedger(RecordDownload(f, requests[0].0, requests[0].1), requests[1..]);
    }
  }

  lemma {:induction false} ReplayElements(f: FileRecord, requests: seq<(string, Time)>)
    ensures Elements(Replay(f, requests).downloadedBy) == Elements(f.downloadedBy) + Fingerprints(requests)
    decreases |requests|
  {
    if requests != [] {
      RecordDownloadElements(f, requests[0].0, requests[0].1);
      ReplayElements(RecordDownload(f, requests[0].0, requests[0].1), requests[1..]);
    }
  }

  lemma {:induction false} ReplayCount(f: FileRecord, requests: seq<(string, Time)>)
    ensures Replay(f, requests).downloads == f.downloads + |Fingerprints(requests) - Elements(f.downloadedBy)|
    decreases |requests|
  {
    if requests != [] {
      var fp := requests[0].0;
      var g := RecordDownload(f, fp, requests[0].1);
      var known := Elements(f.downloadedBy);
      RecordDownloadElements(f, fp, requests[0].1);
      assert (fp in known) == (fp in f.downloadedBy);
      ReplayCount(g, requests[1..]);
      NewFingerprintCount(fp, Fingerprints(requests[1..]), known, f.downloads, g.downloads);
    }
  }

  /** The outcome of `downloadFile`: 400, 404, or 200 with the signed URL. */
  datatype DownloadReply = FileIdRequired | FileNotFound | DownloadUrl(url: string)

  /** `request.params.fileId`, when it is present and non-empty. */
  function RequestedId(fileId: Option<string>): Option<Id>
  {
    if fileId.None? || fileId.value == "" then None else fileId
  }

  /** The file table after `downloadFile`. */
  function DownloadEffect(files: seq<FileRecord>, fileId: Option<string>, fp: string, now: Time): (r: seq<FileRecord>)
    ensures |r| == |files|
    ensures forall j :: 0 <= j < |files| ==>
              r[j] == if RequestedId(fileId) == Some(files[j].id) && FindFile(files, files[j].id) == Some(j)
                      then RecordDownload(files[j], fp, now) else files[j]
  {
    match RequestedId(fileId)
    case None => files
    case Some(id) =>
      match FindFile(files, id)
      case None => files
      case Some(i) => files[i := RecordDownload(files[i], fp, now)]
  }

  /** A download keeps every file's ledger consistent. */
  lemma DownloadEffectKeepsLedgers(files: seq<FileRecord>, fileId: Option<string>, fp: string, now: Time)
    requires forall f :: f in files ==> LedgerOk(f)
    ensures forall f :: f in DownloadEffect(files, fileId, fp, now) ==> LedgerOk(f)
  {
    var r := DownloadEffect(files, fileId, fp, now);
    forall f | f in r ensures LedgerOk(f) {
      var j :| 0 <= j < |r| && r[j] == f;
      assert files[j] in files;
      RecordDownloadKeepsLedger(files[j], fp, now);
    }
  }

  /** `downloadFile`. `isDeleted` is never consulted: a soft-deleted file is
      counted and served like any other. The URL is `sign(file.name)` whether or
      not the download was new. */
  method DownloadFile(db: Database, fileId: Option<string>, ip: Option<string>, userAgent: Option<string>,
                      now: Time, sign: string -> string)
    returns (reply: DownloadReply)
    requires db.Valid()
    modifies db`files
    ensures db.Valid()
    ensures db.files == DownloadEffect(old(db.files), fileId, Fingerprint(ip, userAgent), now)
    ensures RequestedId(fileId).None? ==> reply == FileIdRequired && db.files == old(db.files)
    ensures RequestedId(fileId).Some? && FindFile(old(db.files), RequestedId(fileId).value).None? ==>
              reply == FileNotFound && db.files == old(db.files)
    ensures RequestedId(fileId).Some? && FindFile(old(db.files), RequestedId(fileId).value).Some? ==>
              reply == DownloadUrl(sign(old(db.files)[FindFile(old(db.files), RequestedId(fileId).value).value].name))
  {
    if RequestedId(fileId).None? {
      return FileIdRequired;
    }
    var id := fileId.value;
    var found := FindFile(db.files, id);
    if found.None? {
      return FileNotFound;
    }
    var file := db.files[found.value];
    var fingerprint := Fingerprint(ip, userAgent);
    var alreadyDownloaded := fingerprint in file.downloadedBy;
    if !alreadyDownloaded {
      var newDownloadedBy := file.downloadedBy + [fingerprint];
      var newDownloadedAt := file.downloadedAt + [now];
      UpdateByIdIsPointUpdate(db.files, found.value, LogDownload(newDownloadedBy, newDownloadedAt));
      var _ := UpdateFileById(db, FileWhere(id, None, None), LogDownload(newDownloadedBy, newDownloadedAt));
    }
    reply := DownloadUrl(sign(file.name));
  }
}
