/**
 * Conversion of the stored provider secrets from version 1 to version 2 envelopes: four scans
 * of one settings table inside one transaction, which a dry run or an error rolls back.
 */
module ProviderSecrets {
  import opened Prelude
  import opened CryptoEnvelope

  const LEGACY_VERSION: byte := 1

  datatype Kind = Captcha | OAuth | Oidc | Spam | Notification

  /** The four scans, in the order in which they are made. */
  datatype Category = CaptchaRows | AuthRows | SpamRows | NotificationRows

  datatype Row = Row(kind: Kind, enabled: bool, config: Bytes, version: int, nonce: Bytes, ciphertext: Bytes)

  /** A settings value: a provider row, or a value the repository cannot decode. */
  datatype Stored = Decoded(row: Row) | Malformed

  type Table = map<string, Stored>

  datatype Keys = Keys(aead: Aead, legacy: Bytes, current: Bytes)

  /** One scanned row, as it was when it was listed. */
  datatype Record = Record(key: string, row: Row)

  datatype KindReport = KindReport(scanned: nat, converted: nat, current: nat, noSecret: nat)

  datatype Error =
    | Storage
    | Undecodable
    | Unreadable(key: string)
    | UnsupportedVersion(key: string)
    | Crypto(cause: CryptoError)
  {
    /** A failure of the machine rather than of the stored data. */
    predicate Fault() { this == Storage || this == Crypto(NoRandomness) }
  }

  function CategoryOf(kind: Kind): Category {
    match kind
    case Captcha => CaptchaRows
    case OAuth => AuthRows
    case Oidc => AuthRows
    case Spam => SpamRows
    case Notification => NotificationRows
  }

  predicate Listed(t: Table, c: Category, key: string) {
    key in t && t[key].Decoded? && CategoryOf(t[key].row.kind) == c
  }

  predicate AllDecoded(t: Table) {
    forall key <- t :: t[key].Decoded?
  }

  /** What the secret of a row decrypts to, if anything: its version picks the key. */
  function SecretOf(keys: Keys, row: Row): Option<Bytes> {
    if row.version == LEGACY_VERSION as int then Opened(keys.aead, keys.legacy, LEGACY_VERSION, row)
    else if row.version == PROVIDER_VERSION as int then Opened(keys.aead, keys.current, PROVIDER_VERSION, row)
    else None
  }

  /** The stored parts are joined into an envelope again and opened. */
  function Opened(aead: Aead, key: Bytes, version: byte, row: Row): Option<Bytes> {
    match Decrypt(aead, key, version, [version] + row.nonce + row.ciphertext)
    case Ok(plaintext) => Some(plaintext)
    case Err(_) => None
  }

  /** A row the conversion accepts: no secret at all, or one its version's key opens. */
  predicate Readable(keys: Keys, row: Row) {
    row.ciphertext == [] || SecretOf(keys, row).Some?
  }

  predicate NeedsConversion(row: Row) {
    row.ciphertext != [] && row.version == LEGACY_VERSION as int
  }

  predicate IsCurrent(row: Row) {
    row.ciphertext != [] && row.version == PROVIDER_VERSION as int
  }

  /** What one conversion does to one row. */
  predicate Converted(keys: Keys, before: Row, after: Row) {
    if NeedsConversion(before) then
      && IsCurrent(after)
      && after.kind == before.kind && after.enabled == before.enabled && after.config == before.config
      && SecretOf(keys, before).Some?
      && SecretOf(keys, after) == SecretOf(keys, before)
    else
      after == before && Readable(keys, before)
  }

  /** The rows of the first `done` categories are converted and the others are untouched. */
  ghost predicate ConvertedIn(keys: Keys, done: set<Category>, before: Table, after: Table) {
    && after.Keys == before.Keys
    && forall key <- before ::
         if before[key].Decoded? && CategoryOf(before[key].row.kind) in done
         then after[key].Decoded? && Converted(keys, before[key].row, after[key].row)
         else after[key] == before[key]
  }

  /** The whole table after a committed migration. */
  ghost predicate Migrated(keys: Keys, before: Table, after: Table) {
    && after.Keys == before.Keys
    && AllDecoded(before) && AllDecoded(after)
    && forall key <- before :: Converted(keys, before[key].row, after[key].row)
  }

  ghost predicate Acceptable(keys: Keys, t: Table) {
    forall key <- t :: t[key].Decoded? && Readable(keys, t[key].row)
  }

  /** The same for one scan: every value decodes and every row of its category is accepted. */
  ghost predicate AcceptableFor(keys: Keys, c: Category, t: Table) {
    forall key <- t :: t[key].Decoded? && (CategoryOf(t[key].row.kind) == c ==> Readable(keys, t[key].row))
  }

  predicate DistinctKeys(records: seq<Record>) {
    forall i, j :: 0 <= i < j < |records| ==> records[i].key != records[j].key
  }

  predicate Holds(t: Table, c: Category, x: Record) {
    Listed(t, c, x.key) && t[x.key].row == x.row
  }

  predicate Mentions(records: seq<Record>, key: string) {
    exists i :: 0 <= i < |records| && records[i].key == key
  }

  /** Exactly the rows of one category, each once. */
  ghost predicate Listing(t: Table, c: Category, records: seq<Record>) {
    && DistinctKeys(records)
    && (forall x <- records :: Holds(t, c, x))
    && (forall key :: Listed(t, c, key) ==> Mentions(records, key))
  }

  // ------------------------------------------------------------------ counting

  ghost predicate HasSecret(t: Table, key: string, version: byte) {
    key in t && t[key].Decoded? && t[key].row.ciphertext != [] && t[key].row.version == version as int
  }

  ghost predicate HasNoSecret(t: Table, key: string) {
    key in t && t[key].Decoded? && t[key].row.ciphertext == []
  }

  ghost function ScannedIn(t: Table, c: Category): set<string> {
    set key <- t | Listed(t, c, key)
  }

  ghost function SecretsIn(t: Table, c: Category, version: byte): set<string> {
    set key <- t | Listed(t, c, key) && HasSecret(t, key, version)
  }

  ghost function EmptyIn(t: Table, c: Category): set<string> {
    set key <- t | Listed(t, c, key) && HasNoSecret(t, key)
  }

  /** The counters of one kind say how many rows of each sort the table held before the run. */
  ghost predicate Reports(t: Table, c: Category, r: KindReport) {
    && r.scanned == |ScannedIn(t, c)|
    && r.converted == |SecretsIn(t, c, LEGACY_VERSION)|
    && r.current == |SecretsIn(t, c, PROVIDER_VERSION)|
    && r.noSecret == |EmptyIn(t, c)|
  }

  datatype Report = Report(captcha: KindReport, auth: KindReport, spam: KindReport, notification: KindReport, dryRun: bool)

  ghost predicate ReportsAll(t: Table, r: Report) {
    && Reports(t, CaptchaRows, r.captcha)
    && Reports(t, AuthRows, r.auth)
    && Reports(t, SpamRows, r.spam)
    && Reports(t, NotificationRows, r.notification)
  }

  /** The same counters taken along a list of keys. */
  function Counted(t: Table, keys: seq<string>): (r: KindReport)
    requires forall key <- keys :: key in t && t[key].Decoded?
  {
    if keys == [] then KindReport(0, 0, 0, 0)
    else
      var r := Counted(t, keys[..|keys| - 1]);
      Tick(r, t[keys[|keys| - 1]].row)
  }

  function Tick(r: KindReport, row: Row): KindReport {
    if row.ciphertext == [] then r.(scanned := r.scanned + 1, noSecret := r.noSecret + 1)
    else if row.version == LEGACY_VERSION as int then r.(scanned := r.scanned + 1, converted := r.converted + 1)
    else if row.version == PROVIDER_VERSION as int then r.(scanned := r.scanned + 1, current := r.current + 1)
    else r.(scanned := r.scanned + 1)
  }

  ghost function Named(keys: seq<string>): set<string> {
    set key <- keys
  }

  ghost function WithSecret(t: Table, keys: seq<string>, version: byte): set<string> {
    set key <- keys | HasSecret(t, key, version)
  }

  ghost function WithoutSecret(t: Table, keys: seq<string>): set<string> {
    set key <- keys | HasNoSecret(t, key)
  }

  lemma GrowsBy(small: set<string>, large: set<string>, last: string, joins: bool)
    requires last !in small && forall key :: key in large <==> key in small || (joins && key == last)
    ensures |large| == |small| + if joins then 1 else 0
  {
    assert large == if joins then small + {last} else small;
  }

  /** One more key is one more element of the sets it belongs to. */
  lemma OneMoreKey(t: Table, front: seq<string>, last: string)
    requires last !in front
    ensures |Named(front + [last])| == |Named(front)| + 1
    ensures |WithoutSecret(t, front + [last])| == |WithoutSecret(t, front)| + if HasNoSecret(t, last) then 1 else 0
  {
    GrowsBy(Named(front), Named(front + [last]), last, true);
    GrowsBy(WithoutSecret(t, front), WithoutSecret(t, front + [last]), last, HasNoSecret(t, last));
  }

  lemma OneMoreSecret(t: Table, front: seq<string>, last: string, version: byte)
    requires last !in front
    ensures |WithSecret(t, front + [last], version)| == |WithSecret(t, front, version)| + if HasSecret(t, last, version) then 1 else 0
  {
    GrowsBy(WithSecret(t, front, version), WithSecret(t, front + [last], version), last, HasSecret(t, last, version));
  }

  /** Counting along a list without repeats is counting the keys of each sort. */
  lemma {:induction false} CountedIsSize(t: Table, keys: seq<string>)
    requires NoRepeats(keys) && forall key <- keys :: key in t && t[key].Decoded?
    ensures var r := Counted(t, keys);
            && r.scanned == |Named(keys)|
            && r.converted == |WithSecret(t, keys, LEGACY_VERSION)|
            && r.current == |WithSecret(t, keys, PROVIDER_VERSION)|
            && r.noSecret == |WithoutSecret(t, keys)|
  {
    if keys != [] {
      var front, last := keys[..|keys| - 1], keys[|keys| - 1];
      CountedIsSize(t, front);
      assert keys == front + [last];
      OneMoreKey(t, front, last);
      OneMoreSecret(t, front, last, LEGACY_VERSION);
      OneMoreSecret(t, front, last, PROVIDER_VERSION);
    }
  }

  /** A list of exactly the rows of one category, each once. */
  ghost predicate Lists(t: Table, c: Category, keys: seq<string>) {
    NoRepeats(keys) && forall key :: key in keys <==> Listed(t, c, key)
  }

  /** So the loop's counters are the sizes of the sets of rows the table holds. */
  lemma CountedReports(t: Table, c: Category, keys: seq<string>)
    requires Lists(t, c, keys)
    ensures Reports(t, c, Counted(t, keys))
  {
    CountedIsSize(t, keys);
    assert Named(keys) == ScannedIn(t, c);
    assert WithSecret(t, keys, LEGACY_VERSION) == SecretsIn(t, c, LEGACY_VERSION);
    assert WithSecret(t, keys, PROVIDER_VERSION) == SecretsIn(t, c, PROVIDER_VERSION);
    assert WithoutSecret(t, keys) == EmptyIn(t, c);
  }

  // ------------------------------------------------------------------ composing the scans

  lemma ScanComposes(keys: Keys, done: set<Category>, c: Category, t0: Table, t1: Table, t2: Table)
    requires ConvertedIn(keys, done, t0, t1) && c !in done && ConvertedIn(keys, {c}, t1, t2)
    ensures ConvertedIn(keys, done + {c}, t0, t2)
  {
  }

  /** Earlier scans leave the rows of later categories alone, so the counters speak of the first table. */
  lemma ReportsCarryBack(keys: Keys, done: set<Category>, c: Category, t0: Table, t1: Table, r: KindReport)
    requires ConvertedIn(keys, done, t0, t1) && c !in done && Reports(t1, c, r)
    ensures Reports(t0, c, r)
  {
    assert forall key :: Listed(t0, c, key) <==> Listed(t1, c, key);
    assert ScannedIn(t0, c) == ScannedIn(t1, c);
    assert SecretsIn(t0, c, LEGACY_VERSION) == SecretsIn(t1, c, LEGACY_VERSION);
    assert SecretsIn(t0, c, PROVIDER_VERSION) == SecretsIn(t1, c, PROVIDER_VERSION);
    assert EmptyIn(t0, c) == EmptyIn(t1, c);
  }

  lemma AcceptableCarriesOver(keys: Keys, done: set<Category>, c: Category, t0: Table, t1: Table)
    requires ConvertedIn(keys, done, t0, t1) && c !in done
    ensures Acceptable(keys, t0) ==> AcceptableFor(keys, c, t1)
  {
  }

  function KeysOf(records: seq<Record>): (keys: seq<string>)
    ensures |keys| == |records| && forall i :: 0 <= i < |records| ==> keys[i] == records[i].key
  {
    seq(|records|, i requires 0 <= i < |records| => records[i].key)
  }

  lemma KeysOfListing(t: Table, c: Category, records: seq<Record>)
    requires Listing(t, c, records)
    ensures Lists(t, c, KeysOf(records))
  {
    var keys := KeysOf(records);
    forall key ensures key in keys <==> Listed(t, c, key) {
      if Listed(t, c, key) {
        assert Mentions(records, key);
        var i :| 0 <= i < |records| && records[i].key == key;
        assert keys[i] == key;
      }
      if key in keys {
        var i :| 0 <= i < |keys| && keys[i] == key;
        assert Holds(t, c, records[i]);
      }
    }
  }

  // ------------------------------------------------------------------ the migration

  class Settings {
    var rows: Table

    constructor (initial: Table)
      ensures rows == initial
    {
      rows := initial;
    }

    /** Every stored value must decode; then the rows of one category are listed once each. */
    method List(c: Category) returns (r: Result<seq<Record>, Error>)
      ensures r.Ok? ==> AllDecoded(rows) && Listing(rows, c, r.value)
      ensures r.Err? ==> r.error == Storage || (r.error == Undecodable && !AllDecoded(rows))
    {
      var healthy: bool := *;
      if !healthy {
        return Err(Storage);
      }
      var records: seq<Record> := [];
      var pending := rows.Keys;
      while pending != {}
        invariant pending <= rows.Keys
        invariant forall key <- rows :: key !in pending ==> rows[key].Decoded?
        invariant forall x <- records :: x.key !in pending
        invariant DistinctKeys(records)
        invariant forall x <- records :: Holds(rows, c, x)
        invariant forall key :: Listed(rows, c, key) && key !in pending ==> Mentions(records, key)
        decreases pending
      {
        var key := AnyOf(pending);
        pending := pending - {key};
        if rows[key].Malformed? {
          return Err(Undecodable);
        }
        if CategoryOf(rows[key].row.kind) == c {
          var before := records;
          records := records + [Record(key, rows[key].row)];
          assert records[|before|].key == key;
          assert forall k :: Mentions(before, k) ==> Mentions(records, k) by {
            forall k | Mentions(before, k) ensures Mentions(records, k) {
              var i :| 0 <= i < |before| && before[i].key == k;
              assert records[i].key == k;
            }
          }
        }
      }
      return Ok(records);
    }

    method Upsert(key: string, row: Row) returns (ok: bool)
      modifies this
      ensures rows == if ok then old(rows)[key := Decoded(row)] else old(rows)
    {
      ok := *;
      if ok {
        rows := rows[key := Decoded(row)];
      }
    }
  }

  /** Taking a sealed envelope apart into the stored parts keeps what it opens to. */
  lemma StoredPartsOpen(keys: Keys, row: Row, envelope: Bytes, plaintext: Bytes)
    requires |envelope| > VERSION_LENGTH + NONCE_LENGTH && envelope[0] == PROVIDER_VERSION
    requires Decrypt(keys.aead, keys.current, PROVIDER_VERSION, envelope) == Ok(plaintext)
    requires NeedsConversion(row) && SecretOf(keys, row) == Some(plaintext)
    ensures Converted(keys, row, Renewed(row, envelope))
  {
    var after := Renewed(row, envelope);
    assert [PROVIDER_VERSION] + after.nonce + after.ciphertext == envelope;
  }

  function Renewed(row: Row, envelope: Bytes): Row
    requires |envelope| >= VERSION_LENGTH + NONCE_LENGTH
  {
    row.(version := PROVIDER_VERSION as int,
         nonce := envelope[VERSION_LENGTH..VERSION_LENGTH + NONCE_LENGTH],
         ciphertext := envelope[VERSION_LENGTH + NONCE_LENGTH..])
  }

  class Converter {
    const keys: Keys
    const repo: Settings

    constructor (keys: Keys, repo: Settings)
      ensures this.keys == keys && this.repo == repo
    {
      this.keys := keys;
      this.repo := repo;
    }

    /** One row of the loop: skipped, converted, checked, or refused. */
    method ConvertRecord(record: Record, report: KindReport) returns (r: Result<KindReport, Error>)
      requires keys.aead.Sound() && |keys.current| == KEY_LENGTH
      requires record.key in repo.rows && repo.rows[record.key] == Decoded(record.row)
      modifies repo
      ensures r.Ok? ==> r.value == Tick(report, record.row)
      ensures r.Ok? ==> exists after: Row :: Converted(keys, record.row, after)
                                          && repo.rows == old(repo.rows)[record.key := Decoded(after)]
      ensures r.Err? ==> r.error.Fault() || !Readable(keys, record.row)
      ensures r.Err? && !r.error.Fault() ==>
                record.row.ciphertext != []
                && r.error == if record.row.version == 1 || record.row.version == 2 then Unreadable(record.key)
                              else UnsupportedVersion(record.key)
      ensures r.Err? ==> repo.rows == old(repo.rows)
    {
      var row := record.row;
      if |row.ciphertext| == 0 {
        assert Converted(keys, row, row);
        assert repo.rows == repo.rows[record.key := Decoded(row)];
        return Ok(report.(scanned := report.scanned + 1, noSecret := report.noSecret + 1));
      }
      if row.version == LEGACY_VERSION as int {
        var plaintext := SecretOf(keys, row);
        if plaintext.None? {
          return Err(Unreadable(record.key));
        }
        var envelope := Encrypt(keys.aead, keys.current, PROVIDER_VERSION, plaintext.value);
        if envelope.Err? {
          return Err(Crypto(envelope.error));
        }
        StoredPartsOpen(keys, row, envelope.value, plaintext.value);
        var ok := repo.Upsert(record.key, Renewed(row, envelope.value));
        if !ok {
          return Err(Storage);
        }
        return Ok(report.(scanned := report.scanned + 1, converted := report.converted + 1));
      }
      if row.version == PROVIDER_VERSION as int {
        if SecretOf(keys, row).None? {
          return Err(Unreadable(record.key));
        }
        assert Converted(keys, row, row);
        assert repo.rows == repo.rows[record.key := Decoded(row)];
        return Ok(report.(scanned := report.scanned + 1, current := report.current + 1));
      }
      return Err(UnsupportedVersion(record.key));
    }

    /** All rows of one scan, in the order in which they were listed. */
    method ConvertRecords(c: Category, records: seq<Record>) returns (r: Result<KindReport, Error>)
      requires keys.aead.Sound() && |keys.current| == KEY_LENGTH
      requires AllDecoded(repo.rows) && Listing(repo.rows, c, records)
      modifies repo
      ensures r.Ok? ==> ConvertedIn(keys, {c}, old(repo.rows), repo.rows) && Reports(old(repo.rows), c, r.value)
      ensures r.Ok? ==> AcceptableFor(keys, c, old(repo.rows))
      ensures r.Err? ==> r.error.Fault() || !AcceptableFor(keys, c, old(repo.rows))
    {
      ghost var start := repo.rows;
      var report := KindReport(0, 0, 0, 0);
      var i := 0;
      while i < |records|
        invariant 0 <= i <= |records|
        invariant Progress(keys, start, repo.rows, records, i, report)
      {
        var one := ConvertNext(c, start, records, i, report);
        if one.Err? {
          return Err(one.error);
        }
        report := one.value;
        i := i + 1;
      }
      AllConverted(keys, c, start, repo.rows, records, report);
      return Ok(report);
    }

    method ConvertNext(c: Category, ghost start: Table, records: seq<Record>, i: nat, report: KindReport)
      returns (r: Result<KindReport, Error>)
      requires keys.aead.Sound() && |keys.current| == KEY_LENGTH
      requires AllDecoded(start) && Listing(start, c, records) && i < |records|
      requires Progress(keys, start, repo.rows, records, i, report)
      modifies repo
      ensures r.Ok? ==> Progress(keys, start, repo.rows, records, i + 1, r.value)
      ensures r.Err? ==> r.error.Fault() || !AcceptableFor(keys, c, start)
    {
      ghost var mid := repo.rows;
      StillAsListed(keys, c, start, mid, records, i, report);
      r := ConvertRecord(records[i], report);
      if r.Ok? {
        ghost var row: Row :| Converted(keys, records[i].row, row) && repo.rows == mid[records[i].key := Decoded(row)];
        OneMore(keys, c, start, mid, records, i, report, row);
      }
    }

    /** One listing followed by one conversion loop. */
    method ConvertCategory(c: Category) returns (r: Result<KindReport, Error>)
      requires keys.aead.Sound() && |keys.current| == KEY_LENGTH
      modifies repo
      ensures r.Ok? ==> ConvertedIn(keys, {c}, old(repo.rows), repo.rows) && Reports(old(repo.rows), c, r.value)
      ensures r.Ok? ==> AcceptableFor(keys, c, old(repo.rows))
      ensures r.Err? ==> r.error.Fault() || !AcceptableFor(keys, c, old(repo.rows))
    {
      var records := repo.List(c);
      if records.Err? {
        return Err(records.error);
      }
      r := ConvertRecords(c, records.value);
    }

    /** A scan on top of earlier scans of the same run. */
    method Scan(ghost done: set<Category>, ghost start: Table, c: Category) returns (r: Result<KindReport, Error>)
      requires keys.aead.Sound() && |keys.current| == KEY_LENGTH
      requires ConvertedIn(keys, done, start, repo.rows) && c !in done
      modifies repo
      ensures r.Ok? ==> ConvertedIn(keys, done + {c}, start, repo.rows) && Reports(start, c, r.value)
      ensures r.Ok? ==> AcceptableFor(keys, c, start)
      ensures r.Err? ==> r.error.Fault() || !Acceptable(keys, start)
    {
      ghost var mid := repo.rows;
      AcceptableCarriesOver(keys, done, c, start, mid);
      r := ConvertCategory(c);
      if r.Ok? {
        ScanComposes(keys, done, c, start, mid, repo.rows);
        ReportsCarryBack(keys, done, c, start, mid, r.value);
        AcceptedCarriesBack(keys, done, c, start, mid);
      }
    }

    method Convert() returns (r: Result<Report, Error>)
      requires keys.aead.Sound() && |keys.current| == KEY_LENGTH
      modifies repo
      ensures r.Ok? ==> Migrated(keys, old(repo.rows), repo.rows) && ReportsAll(old(repo.rows), r.value) && !r.value.dryRun
      ensures r.Ok? ==> Acceptable(keys, old(repo.rows))
      ensures r.Err? ==> r.error.Fault() || !Acceptable(keys, old(repo.rows))
    {
      ghost var start := repo.rows;
      var captcha := Scan({}, start, CaptchaRows);
      if captcha.Err? {
        return Err(captcha.error);
      }
      var auth := Scan({CaptchaRows}, start, AuthRows);
      if auth.Err? {
        return Err(auth.error);
      }
      var spam := Scan({CaptchaRows, AuthRows}, start, SpamRows);
      if spam.Err? {
        return Err(spam.error);
      }
      var notification := Scan({CaptchaRows, AuthRows, SpamRows}, start, NotificationRows);
      if notification.Err? {
        return Err(notification.error);
      }
      EveryRowScanned(keys, start, repo.rows);
      return Ok(Report(captcha.value, auth.value, spam.value, notification.value, false));
    }
  }

  /**
   * The tool: a committed run leaves the migrated table; a dry run, and a run that fails anywhere,
   * leave the table as they found it. Apart from faults of the machine it succeeds exactly when
   * the new raw key is long enough and every stored value can be read.
   */
  method Migrate(aead: Aead, kdf: (Bytes, string) -> Bytes, repo: Settings, legacyRaw: Bytes, newRaw: Bytes, execute: bool)
    returns (r: Result<Report, Error>)
    requires aead.Sound()
    requires forall raw: Bytes, info: string :: |kdf(raw, info)| == KEY_LENGTH
    modifies repo
    ensures r.Ok? ==> r.value.dryRun == !execute && ReportsAll(old(repo.rows), r.value)
    ensures r.Ok? && execute ==> Migrated(Keys(aead, legacyRaw, kdf(newRaw, PROVIDER_KEY_INFO)), old(repo.rows), repo.rows)
    ensures r.Err? || !execute ==> repo.rows == old(repo.rows)
    ensures r.Ok? ==> |newRaw| >= KEY_LENGTH && Acceptable(Keys(aead, legacyRaw, kdf(newRaw, PROVIDER_KEY_INFO)), old(repo.rows))
    ensures r.Err? ==> r.error.Fault() || |newRaw| < KEY_LENGTH
                       || !Acceptable(Keys(aead, legacyRaw, kdf(newRaw, PROVIDER_KEY_INFO)), old(repo.rows))
  {
    var derived := DeriveProviderKey(kdf, newRaw);
    if derived.Err? {
      return Err(Crypto(derived.error));
    }
    var begun := repo.rows;
    var converter := new Converter(Keys(aead, legacyRaw, derived.value), repo);
    r := converter.Convert();
    if r.Err? {
      repo.rows := begun;
      return r;
    }
    var committed: bool := *;
    if execute && !committed {
      repo.rows := begun;
      return Err(Storage);
    }
    if !execute {
      repo.rows := begun;
      return Ok(r.value.(dryRun := true));
    }
  }

  lemma AcceptedCarriesBack(keys: Keys, done: set<Category>, c: Category, t0: Table, t1: Table)
    requires ConvertedIn(keys, done, t0, t1) && c !in done && AcceptableFor(keys, c, t1)
    ensures AcceptableFor(keys, c, t0)
  {
  }

  lemma EveryRowScanned(keys: Keys, t0: Table, t1: Table)
    requires ConvertedIn(keys, {CaptchaRows, AuthRows, SpamRows, NotificationRows}, t0, t1)
    requires AcceptableFor(keys, CaptchaRows, t0) && AcceptableFor(keys, AuthRows, t0)
    requires AcceptableFor(keys, SpamRows, t0) && AcceptableFor(keys, NotificationRows, t0)
    ensures Migrated(keys, t0, t1) && Acceptable(keys, t0)
  {
    forall key | key in t0
      ensures t1[key].Decoded? && Converted(keys, t0[key].row, t1[key].row) && Readable(keys, t0[key].row)
    {
      FourCategories(t0[key].row.kind);
    }
  }

  lemma FourCategories(kind: Kind)
    ensures CategoryOf(kind) in {CaptchaRows, AuthRows, SpamRows, NotificationRows}
  {
    match kind {
      case Captcha | OAuth | Oidc | Spam | Notification =>
    }
  }

  // ------------------------------------------------------------------ what a committed run means

  /**
   * Every secret was at version 1 or 2 and opened under the legacy or the new key; now it is at
   * version 2 and opens under the new key to the same bytes. Nothing else of a row changes.
   */
  lemma SecretsKept(keys: Keys, before: Table, after: Table, key: string)
    requires Migrated(keys, before, after) && key in before
    ensures before[key].Decoded? && key in after && after[key].Decoded?
    ensures var b, a := before[key].row, after[key].row;
            && a.kind == b.kind && a.enabled == b.enabled && a.config == b.config
            && (b.ciphertext == [] || b.version == 2 ==> a == b)
            && (b.ciphertext != [] ==>
                  && (b.version == 1 || b.version == 2) && a.version == 2 && a.ciphertext != []
                  && var was := if b.version == 1 then Decrypt(keys.aead, keys.legacy, 1, [1] + b.nonce + b.ciphertext)
                                else Decrypt(keys.aead, keys.current, 2, [2] + b.nonce + b.ciphertext);
                  was.Ok? && Decrypt(keys.aead, keys.current, 2, [2] + a.nonce + a.ciphertext) == was)
  {
    var b, a := before[key].row, after[key].row;
    assert Converted(keys, b, a);
  }

  /** A table is acceptable when every secret opens under the key of its version, the only ones being 1 and 2. */
  lemma AcceptableMeans(keys: Keys, t: Table)
    ensures Acceptable(keys, t) <==> forall key <- t ::
              t[key].Decoded? && var b := t[key].row;
              || b.ciphertext == []
              || (b.version == 1 && Decrypt(keys.aead, keys.legacy, 1, [1] + b.nonce + b.ciphertext).Ok?)
              || (b.version == 2 && Decrypt(keys.aead, keys.current, 2, [2] + b.nonce + b.ciphertext).Ok?)
  {
  }

  /** The kinds of rows that each of the four scans lists. */
  lemma CategoriesMean(kind: Kind)
    ensures CategoryOf(kind) == CaptchaRows <==> kind == Captcha
    ensures CategoryOf(kind) == AuthRows <==> kind == OAuth || kind == Oidc
    ensures CategoryOf(kind) == SpamRows <==> kind == Spam
    ensures CategoryOf(kind) == NotificationRows <==> kind == Notification
  {
  }

  /** The counters of the scan of some kinds, in terms of the rows of these kinds alone. */
  lemma ReportsMean(t: Table, c: Category, kinds: set<Kind>, r: KindReport)
    requires forall kind :: kind in kinds <==> CategoryOf(kind) == c
    requires Reports(t, c, r)
    ensures r.scanned == |set key <- t | t[key].Decoded? && t[key].row.kind in kinds|
    ensures r.noSecret == |set key <- t | t[key].Decoded? && t[key].row.kind in kinds && t[key].row.ciphertext == []|
    ensures r.converted == |set key <- t | t[key].Decoded? && t[key].row.kind in kinds
                                           && t[key].row.ciphertext != [] && t[key].row.version == 1|
    ensures r.current == |set key <- t | t[key].Decoded? && t[key].row.kind in kinds
                                         && t[key].row.ciphertext != [] && t[key].row.version == 2|
  {
    assert ScannedIn(t, c) == set key <- t | t[key].Decoded? && t[key].row.kind in kinds;
    assert EmptyIn(t, c) == set key <- t | t[key].Decoded? && t[key].row.kind in kinds && t[key].row.ciphertext == [];
    assert SecretsIn(t, c, LEGACY_VERSION)
        == set key <- t | t[key].Decoded? && t[key].row.kind in kinds && t[key].row.ciphertext != [] && t[key].row.version == 1;
    assert SecretsIn(t, c, PROVIDER_VERSION)
        == set key <- t | t[key].Decoded? && t[key].row.kind in kinds && t[key].row.ciphertext != [] && t[key].row.version == 2;
  }

  /** The rows of a kind fall into exactly the three sorts that the counters name. */
  lemma ScannedSplits(keys: Keys, t: Table, c: Category, r: KindReport)
    requires Acceptable(keys, t) && Reports(t, c, r)
    ensures r.scanned == r.converted + r.current + r.noSecret
  {
    SortsCover(keys, t, c);
    DisjointSizes(SecretsIn(t, c, LEGACY_VERSION), SecretsIn(t, c, PROVIDER_VERSION), EmptyIn(t, c));
  }

  lemma SortsCover(keys: Keys, t: Table, c: Category)
    requires Acceptable(keys, t)
    ensures ScannedIn(t, c) == SecretsIn(t, c, LEGACY_VERSION) + SecretsIn(t, c, PROVIDER_VERSION) + EmptyIn(t, c)
    ensures SecretsIn(t, c, LEGACY_VERSION) !! SecretsIn(t, c, PROVIDER_VERSION) !! EmptyIn(t, c)
  {
    forall key | Listed(t, c, key)
      ensures HasSecret(t, key, LEGACY_VERSION) || HasSecret(t, key, PROVIDER_VERSION) || HasNoSecret(t, key)
    {
      assert Readable(keys, t[key].row);
    }
  }

  lemma DisjointSizes(a: set<string>, b: set<string>, c: set<string>)
    requires a !! b !! c
    ensures |a + b + c| == |a| + |b| + |c|
  {
    assert |a + b| == |a| + |b|;
    assert |(a + b) + c| == |a + b| + |c|;
  }

  /** A second run finds nothing to convert and changes nothing. */
  lemma SecondRunConvertsNothing(keys: Keys, t0: Table, t1: Table, t2: Table, c: Category, r: KindReport)
    requires Migrated(keys, t0, t1) && Migrated(keys, t1, t2) && Reports(t1, c, r)
    ensures t2 == t1 && r.converted == 0
  {
    forall key | key in t1 ensures !NeedsConversion(t1[key].row) && t2[key] == t1[key] {
      SecretsKept(keys, t0, t1, key);
      assert Converted(keys, t1[key].row, t2[key].row);
    }
    assert SecretsIn(t1, c, LEGACY_VERSION) == {};
  }

  /** A committed run leaves a table on which a further run cannot be refused. */
  lemma SecondRunAccepted(keys: Keys, t0: Table, t1: Table)
    requires Migrated(keys, t0, t1)
    ensures Acceptable(keys, t1)
  {
    forall key | key in t1 ensures t1[key].Decoded? && Readable(keys, t1[key].row) {
      SecretsKept(keys, t0, t1, key);
    }
  }

  /** The first `i` records are converted; everything else is as it was. */
  ghost predicate ConvertedUpTo(keys: Keys, before: Table, after: Table, records: seq<Record>, i: nat)
    requires i <= |records|
  {
    && after.Keys == before.Keys
    && (forall j :: 0 <= j < i ==> RecordConverted(keys, after, records[j]))
    && (forall key <- before :: !Mentions(records[..i], key) ==> after[key] == before[key])
  }

  ghost predicate Progress(keys: Keys, before: Table, after: Table, records: seq<Record>, i: nat, report: KindReport)
    requires i <= |records|
  {
    && ConvertedUpTo(keys, before, after, records, i)
    && (forall x <- records :: x.key in before && before[x.key] == Decoded(x.row))
    && report == Counted(before, KeysOf(records)[..i])
  }

  ghost predicate RecordConverted(keys: Keys, after: Table, x: Record) {
    x.key in after && after[x.key].Decoded? && Converted(keys, x.row, after[x.key].row)
  }

  lemma AllConverted(keys: Keys, c: Category, before: Table, after: Table, records: seq<Record>, report: KindReport)
    requires AllDecoded(before) && Listing(before, c, records)
    requires Progress(keys, before, after, records, |records|, report)
    ensures ConvertedIn(keys, {c}, before, after)
    ensures AcceptableFor(keys, c, before)
    ensures Reports(before, c, report)
  {
    var names := KeysOf(records);
    assert names[..|records|] == names;
    KeysOfListing(before, c, records);
    CountedReports(before, c, names);
    forall key | key in before
      ensures if CategoryOf(before[key].row.kind) == c
              then after[key].Decoded? && Converted(keys, before[key].row, after[key].row)
              else after[key] == before[key]
    {
      KeyConverted(keys, c, before, after, records, key);
    }
  }

  lemma KeyConverted(keys: Keys, c: Category, before: Table, after: Table, records: seq<Record>, key: string)
    requires AllDecoded(before) && Listing(before, c, records) && key in before
    requires ConvertedUpTo(keys, before, after, records, |records|)
    ensures if Listed(before, c, key)
            then after[key].Decoded? && Converted(keys, before[key].row, after[key].row)
            else after[key] == before[key]
  {
    assert records[..|records|] == records;
    if Listed(before, c, key) {
      assert Mentions(records, key);
      var i :| 0 <= i < |records| && records[i].key == key;
      assert RecordConverted(keys, after, records[i]);
      assert Holds(before, c, records[i]);
    } else {
      assert forall i | 0 <= i < |records| :: Holds(before, c, records[i]);
      assert !Mentions(records, key);
    }
  }

  /** The record about to be converted is still in the table as it was listed. */
  lemma StillAsListed(keys: Keys, c: Category, before: Table, mid: Table, records: seq<Record>, i: nat, report: KindReport)
    requires AllDecoded(before) && Listing(before, c, records) && i < |records|
    requires Progress(keys, before, mid, records, i, report)
    ensures records[i].key in mid && mid[records[i].key] == Decoded(records[i].row)
    ensures Readable(keys, records[i].row) || !AcceptableFor(keys, c, before)
  {
    assert Holds(before, c, records[i]);
    assert !Mentions(records[..i], records[i].key);
  }

  lemma OneMore(keys: Keys, c: Category, before: Table, mid: Table, records: seq<Record>, i: nat, report: KindReport, row: Row)
    requires Listing(before, c, records) && i < |records|
    requires Progress(keys, before, mid, records, i, report)
    requires Converted(keys, records[i].row, row)
    ensures Progress(keys, before, mid[records[i].key := Decoded(row)], records, i + 1, Tick(report, records[i].row))
  {
    var names := KeysOf(records);
    assert names[..i + 1][..i] == names[..i];
    assert Holds(before, c, records[i]);
    OneMoreRow(keys, before, mid, records, i, row);
  }

  lemma OneMoreRow(keys: Keys, before: Table, mid: Table, records: seq<Record>, i: nat, row: Row)
    requires i < |records| && DistinctKeys(records) && records[i].key in before
    requires ConvertedUpTo(keys, before, mid, records, i) && Converted(keys, records[i].row, row)
    ensures ConvertedUpTo(keys, before, mid[records[i].key := Decoded(row)], records, i + 1)
  {
    var after := mid[records[i].key := Decoded(row)];
    forall j | 0 <= j < i + 1 ensures RecordConverted(keys, after, records[j]) {
      if j < i {
        assert RecordConverted(keys, mid, records[j]);
      }
    }
    MentionsOneMore(records, i);
  }

  lemma MentionsOneMore(records: seq<Record>, i: nat)
    requires i < |records|
    ensures forall key :: Mentions(records[..i + 1], key) <==> Mentions(records[..i], key) || records[i].key == key
  {
    forall key ensures Mentions(records[..i + 1], key) <==> Mentions(records[..i], key) || records[i].key == key {
      if Mentions(records[..i], key) {
        var j :| 0 <= j < i && records[..i][j].key == key;
        assert records[..i + 1][j].key == key;
      }
      if Mentions(records[..i + 1], key) {
        var j :| 0 <= j < i + 1 && records[..i + 1][j].key == key;
        if j < i {
          assert records[..i][j].key == key;
        }
      }
      assert records[..i + 1][i] == records[i];
    }
  }
}
