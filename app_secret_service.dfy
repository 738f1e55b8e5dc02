/** The application-secret service: issuing an application id and key on
    create, renaming on update, logical delete, and the export projection.
    The generated unique id and the clock reading arrive as parameters; the
    keyed hash is a function fixed at construction. */
module AppSecrets {
  import opened Common
  import opened Clock

  /** The create/update input. */
  datatype AppSecretInput = AppSecretInput(id: int, appId: string, appSecretKey: string,
                                           appName: string, remark: Option<string>)

  /** One stored row; `createTime` is stamped by the repository on insert. */
  datatype AppSecret = AppSecret(id: int, appId: string, appSecretKey: string, appName: string,
                                 remark: Option<string>, createTime: DateTime)

  /** One exported line. */
  datatype AppSecretExport = AppSecretExport(appId: string, appSecretKey: string, appName: string,
                                             remark: Option<string>, createTime: DateTime)

  /** The exceptions the service throws. `IdTooShort` is the range error
      `id[..8]` raises on a generated id shorter than eight characters. */
  datatype Failure = AppNameExists | DataNotExist | IdTooShort

  /** A call either returns a flag or throws. */
  datatype Outcome = Returned(value: bool) | Thrown(failure: Failure)

  ghost predicate AppNameTaken(secrets: map<int, AppSecret>, name: string)
  {
    exists k :: k in secrets && secrets[k].appName == name
  }

  ghost predicate WellKeyed(secrets: map<int, AppSecret>)
  {
    forall k :: k in secrets ==> secrets[k].id == k
  }

  ghost predicate NamesUnique(secrets: map<int, AppSecret>)
  {
    forall a, b :: a in secrets && b in secrets && a != b ==> secrets[a].appName != secrets[b].appName
  }

  /** The application id: the `yyyyMMdd` stamp of the day followed by the
      first eight characters of the generated id; none when the id is too
      short to cut. */
  function MakeAppId(now: DateTime, id: string): (r: Option<string>)
    ensures r.Some? <==> |id| >= 8
    ensures r.Some? ==> |r.value| == 16 && r.value[..8] == DateStamp(now) && r.value[8..] == id[..8]
    ensures r.Some? ==> AllDigits(r.value[..8])
  {
    if |id| < 8 then None
    else
      var s := DateStamp(now) + id[..8];
      assert s[..8] == DateStamp(now) && s[8..] == id[..8];
      Some(s)
  }

  /** An application id pins down the day it was issued and the generated
      id's first eight characters. */
  lemma AppIdDeterminesDayAndPrefix(n1: DateTime, id1: string, n2: DateTime, id2: string)
    requires MakeAppId(n1, id1).Some? && MakeAppId(n1, id1) == MakeAppId(n2, id2)
    ensures n1.year == n2.year && n1.month == n2.month && n1.day == n2.day
    ensures id1[..8] == id2[..8]
  {
    var a := MakeAppId(n1, id1).value;
    assert DateStamp(n1) == a[..8] == DateStamp(n2);
    DateStampInjective(n1, n2);
  }

  /** The guards of `UpdateAsync`: an unknown id, then a CHANGED name that
      some row already carries. */
  ghost function UpdateCheck(secrets: map<int, AppSecret>, dto: AppSecretInput): (r: Option<Failure>)
    ensures r == Some(DataNotExist) <==> dto.id !in secrets
    ensures r == Some(AppNameExists) <==>
      dto.id in secrets && secrets[dto.id].appName != dto.appName && AppNameTaken(secrets, dto.appName)
    ensures dto.id in secrets && secrets[dto.id].appName == dto.appName ==> r.None?
  {
    if dto.id !in secrets then Some(DataNotExist)
    else if secrets[dto.id].appName != dto.appName && AppNameTaken(secrets, dto.appName) then Some(AppNameExists)
    else None
  }

  /** The row an update writes: the input's columns with the stored
      creation time. */
  function Updated(stored: AppSecret, dto: AppSecretInput): (row: AppSecret)
    ensures row.id == dto.id && row.appName == dto.appName && row.remark == dto.remark
    ensures row.appId == dto.appId && row.appSecretKey == dto.appSecretKey
    ensures row.createTime == stored.createTime
  {
    AppSecret(dto.id, dto.appId, dto.appSecretKey, dto.appName, dto.remark, stored.createTime)
  }

  /** Whatever the update guards let through keeps application names unique. */
  lemma UpdateKeepsNamesUnique(secrets: map<int, AppSecret>, dto: AppSecretInput)
    requires NamesUnique(secrets) && UpdateCheck(secrets, dto).None?
    ensures NamesUnique(secrets[dto.id := Updated(secrets[dto.id], dto)])
  {
    var after := secrets[dto.id := Updated(secrets[dto.id], dto)];
    forall a, b | a in after && b in after && a != b ensures after[a].appName != after[b].appName {
      if a == dto.id && secrets[dto.id].appName != dto.appName {
        assert !AppNameTaken(secrets, dto.appName);
        assert secrets[b].appName != dto.appName;
      } else if b == dto.id && secrets[dto.id].appName != dto.appName {
        assert !AppNameTaken(secrets, dto.appName);
        assert secrets[a].appName != dto.appName;
      }
    }
  }

  function ExportOf(row: AppSecret): (e: AppSecretExport)
    ensures e.appId == row.appId && e.appSecretKey == row.appSecretKey && e.appName == row.appName
    ensures e.remark == row.remark && e.createTime == row.createTime
  {
    AppSecretExport(row.appId, row.appSecretKey, row.appName, row.remark, row.createTime)
  }

  /** `DownloadAsync`: one export line per row the query returned, in the
      query's order. */
  function Download(rows: seq<AppSecret>): (r: seq<AppSecretExport>)
    ensures |r| == |rows|
    ensures forall i :: 0 <= i < |rows| ==> r[i] == ExportOf(rows[i])
  {
    if rows == [] then [] else Download(rows[..|rows| - 1]) + [ExportOf(rows[|rows| - 1])]
  }

  /** Exporting two result sets one after the other is exporting their
      concatenation. */
  lemma {:induction false} DownloadAppend(a: seq<AppSecret>, b: seq<AppSecret>)
    ensures Download(a + b) == Download(a) + Download(b)
    decreases |b|
  {
    if b != [] {
      var b' := b[..|b| - 1];
      assert (a + b)[..|a + b| - 1] == a + b';
      DownloadAppend(a, b');
    }
  }

  class AppSecretService {
    /** `ToHmacsha256String(message, key)`. */
    const hmac: (string, string) -> string
    /** The configured `HmacSecret`. */
    const hmacSecret: string
    /** The rows not logically deleted, by id. */
    var secrets: map<int, AppSecret>

    ghost predicate Valid()
      reads this
    {
      WellKeyed(secrets)
    }

    constructor(hmac: (string, string) -> string, hmacSecret: string, secrets: map<int, AppSecret>)
      requires WellKeyed(secrets)
      ensures Valid()
      ensures this.hmac == hmac && this.hmacSecret == hmacSecret && this.secrets == secrets
    {
      this.hmac := hmac;
      this.hmacSecret := hmacSecret;
      this.secrets := secrets;
    }

    /** The row `CreateAsync` inserts: the issued id and key, the input's
        name and remark, the creation time. */
    function Issued(dto: AppSecretInput, appId: string, id: string, now: DateTime): (row: AppSecret)
      reads this
      ensures row.appId == appId && row.appSecretKey == hmac(appId + id, hmacSecret)
      ensures row.appName == dto.appName && row.remark == dto.remark && row.createTime == now
    {
      AppSecret(dto.id, appId, hmac(appId + id, hmacSecret), dto.appName, dto.remark, now)
    }

    /** `AddEntityAsync`: the insert may fail; on success the row is stored
        under a fresh positive id. */
    method AddEntity(row: AppSecret) returns (ok: bool)
      requires Valid()
      modifies this`secrets
      ensures Valid()
      ensures ok ==> exists k :: k > 0 && k !in old(secrets) && secrets == old(secrets)[k := row.(id := k)]
      ensures !ok ==> secrets == old(secrets)
    {
      ok :| true;
      if ok {
        var k := FreshKey(secrets);
        secrets := secrets[k := row.(id := k)];
      }
    }

    /** `CreateAsync`. `id` is the generated unique id and `now` the clock
        reading. */
    method Create(dto: AppSecretInput, id: string, now: DateTime) returns (r: Outcome)
      requires Valid()
      modifies this`secrets
      ensures Valid()
      ensures AppNameTaken(old(secrets), dto.appName) ==> r == Thrown(AppNameExists) && secrets == old(secrets)
      ensures !AppNameTaken(old(secrets), dto.appName) && |id| < 8 ==>
        r == Thrown(IdTooShort) && secrets == old(secrets)
      ensures !AppNameTaken(old(secrets), dto.appName) && |id| >= 8 ==>
        var row := Issued(dto, DateStamp(now) + id[..8], id, now);
        (r == Returned(true) && exists k :: k > 0 && k !in old(secrets) && secrets == old(secrets)[k := row.(id := k)])
        || (r == Returned(false) && secrets == old(secrets))
      ensures NamesUnique(old(secrets)) ==> NamesUnique(secrets)
    {
      if exists k :: k in secrets && secrets[k].appName == dto.appName {
        return Thrown(AppNameExists);
      }
      var appId := MakeAppId(now, id);
      if appId.None? {
        return Thrown(IdTooShort);
      }
      var row := Issued(dto, appId.value, id, now);
      var ok := AddEntity(row);
      r := Returned(ok);
      if ok {
        ghost var k :| k > 0 && k !in old(secrets) && secrets == old(secrets)[k := row.(id := k)];
        forall a, b | a in secrets && b in secrets && a != b && NamesUnique(old(secrets))
          ensures secrets[a].appName != secrets[b].appName
        {
          if a == k {
            assert secrets[b] == old(secrets)[b];
          } else if b == k {
            assert secrets[a] == old(secrets)[a];
          }
        }
      }
    }

    /** `UpdateAsync`: throws on an unknown id or a changed name already in
        use; otherwise overwrites the row from the input. */
    method Update(dto: AppSecretInput) returns (r: Outcome)
      requires Valid()
      modifies this`secrets
      ensures Valid()
      ensures UpdateCheck(old(secrets), dto).Some? ==>
        r == Thrown(UpdateCheck(old(secrets), dto).value) && secrets == old(secrets)
      ensures UpdateCheck(old(secrets), dto).None? ==>
        (r == Returned(true) && secrets == old(secrets)[dto.id := Updated(old(secrets)[dto.id], dto)])
        || (r == Returned(false) && secrets == old(secrets))
      ensures NamesUnique(old(secrets)) ==> NamesUnique(secrets)
    {
      if dto.id !in secrets {
        return Thrown(DataNotExist);
      }
      var stored := secrets[dto.id];
      if stored.appName != dto.appName && exists k :: k in secrets && secrets[k].appName == dto.appName {
        return Thrown(AppNameExists);
      }
      var ok :| true;
      if ok {
        secrets := secrets[dto.id := Updated(stored, dto)];
      }
      r := Returned(ok);
      if NamesUnique(old(secrets)) {
        UpdateKeepsNamesUnique(old(secrets), dto);
      }
    }

    /** `DeleteAsync`: throws when no id matches; otherwise reports whether
        the logical delete marked any row. */
    method Delete(ids: set<int>) returns (r: Outcome)
      requires Valid()
      modifies this`secrets
      ensures Valid()
      ensures ids * old(secrets).Keys == {} ==> r == Thrown(DataNotExist) && secrets == old(secrets)
      ensures ids * old(secrets).Keys != {} ==>
        (r == Returned(true) && secrets == old(secrets) - ids)
        || (r == Returned(false) && secrets == old(secrets))
    {
      if ids * secrets.Keys == {} {
        return Thrown(DataNotExist);
      }
      var ok :| true;
      var count := 0;
      if ok {
        count := |ids * secrets.Keys|;
        secrets := secrets - ids;
      }
      r := Returned(count > 0);
    }
  }
}
