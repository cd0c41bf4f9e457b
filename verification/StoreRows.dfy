/** Records, table rows and the conversions between them (`src/store.rs`). Nullable `BIGINT`
    columns hold `None` for NULL; the row decoders see them through `COALESCE(column, -1)`. */
module StoreRows {
  import opened Prelude

  type I64 = n: int | -TWO_63 <= n < TWO_63 witness 0

  /** The server clock in Unix seconds, which fits an `i64`. */
  type Clock = n: nat | n < TWO_63 witness 0

  datatype Role = Platform | Admin | Standard

  datatype KeyRecord = KeyRecord(
    id: string, tenantId: Option<string>, title: string, role: Role, keyHash: string, createdAt: U64,
    expiresAt: Option<U64>, lastUsedAt: Option<U64>, revokedAt: Option<U64>)
  {
    predicate IsActive(now: nat) {
      revokedAt.None? && match expiresAt { case Some(exp) => exp > now case None => true }
    }
  }

  datatype TenantInfo = TenantInfo(
    id: string, name: string, language: string, quotaLimit: U64, requestCount: nat,
    periodStart: Option<U64>, periodEnd: Option<U64>, suspendedAt: Option<U64>, createdAt: U64)

  datatype OriginInfo = OriginInfo(id: string, tenantId: string, origin: string, createdAt: U64)

  datatype DictionaryInfo = DictionaryInfo(code: string, sourceUrl: string, createdAt: U64)

  // ---- Rows ------------------------------------------------------------------------

  datatype KeyRow = KeyRow(
    tenantId: Option<string>, title: string, role: Role, keyHash: string, createdAt: I64,
    expiresAt: Option<I64>, lastUsedAt: Option<I64>, revokedAt: Option<I64>)

  datatype TenantRow = TenantRow(
    name: string, language: string, quotaLimit: I64, requestCount: nat,
    periodStart: Option<I64>, periodEnd: Option<I64>, suspendedAt: Option<I64>, createdAt: I64)

  datatype OriginRow = OriginRow(tenantId: string, origin: string, createdAt: I64)

  datatype DictionaryRow = DictionaryRow(sourceUrl: string, createdAt: I64)

  // ---- Binding and decoding ------------------------------------------------------------

  function BindTime(t: Option<U64>): Option<I64> {
    match t case Some(v) => Some(AsI64(v)) case None => None
  }

  /** `COALESCE(column, -1)`, then `(v >= 0).then_some(v as u64)`. */
  function ReadTime(column: Option<I64>): Option<U64> {
    var v := match column { case Some(n) => n case None => -1 };
    if v >= 0 then Some(AsU64(v)) else None
  }

  /** `COALESCE(tenant_id, '')`, then the empty text means no tenant. */
  function ReadTenantId(column: Option<string>): Option<string> {
    var v := match column { case Some(s) => s case None => "" };
    if v != "" then Some(v) else None
  }

  function BindKey(r: KeyRecord): KeyRow {
    KeyRow(r.tenantId, r.title, r.role, r.keyHash, AsI64(r.createdAt),
           BindTime(r.expiresAt), BindTime(r.lastUsedAt), BindTime(r.revokedAt))
  }

  /** `key_record_from_row`. */
  function ReadKey(id: string, row: KeyRow): KeyRecord {
    KeyRecord(id, ReadTenantId(row.tenantId), row.title, row.role, row.keyHash, AsU64(row.createdAt),
              ReadTime(row.expiresAt), ReadTime(row.lastUsedAt), ReadTime(row.revokedAt))
  }

  function BindTenant(t: TenantInfo): TenantRow {
    TenantRow(t.name, t.language, AsI64(t.quotaLimit), t.requestCount,
              BindTime(t.periodStart), BindTime(t.periodEnd), BindTime(t.suspendedAt), AsI64(t.createdAt))
  }

  /** `tenant_info_from_row`. */
  function ReadTenant(id: string, row: TenantRow): TenantInfo {
    TenantInfo(id, row.name, row.language, AsU64(row.quotaLimit), row.requestCount,
               ReadTime(row.periodStart), ReadTime(row.periodEnd), ReadTime(row.suspendedAt), AsU64(row.createdAt))
  }

  function BindOrigin(o: OriginInfo): OriginRow { OriginRow(o.tenantId, o.origin, AsI64(o.createdAt)) }

  function ReadOrigin(id: string, row: OriginRow): OriginInfo {
    OriginInfo(id, row.tenantId, row.origin, AsU64(row.createdAt))
  }

  function BindDictionary(d: DictionaryInfo): DictionaryRow { DictionaryRow(d.sourceUrl, AsI64(d.createdAt)) }

  function ReadDictionary(code: string, row: DictionaryRow): DictionaryInfo {
    DictionaryInfo(code, row.sourceUrl, AsU64(row.createdAt))
  }

  // ---- Round trips -------------------------------------------------------------------------

  predicate TimeFits(t: Option<U64>) { t.Some? ==> t.value < TWO_63 }

  predicate KeyFits(r: KeyRecord) {
    TimeFits(r.expiresAt) && TimeFits(r.lastUsedAt) && TimeFits(r.revokedAt) && r.tenantId != Some("")
  }

  predicate TenantFits(t: TenantInfo) { TimeFits(t.periodStart) && TimeFits(t.periodEnd) && TimeFits(t.suspendedAt) }

  lemma IntegersRoundTrip(n: U64)
    ensures AsU64(AsI64(n)) == n
  {
  }

  lemma TimeRoundTrip(t: Option<U64>)
    ensures ReadTime(BindTime(t)) == if TimeFits(t) then t else None
  {
  }

  /** A key record survives the database exactly when its optional times stay below 2^63 and its
      tenant id is not the empty text. */
  lemma KeyRoundTrip(r: KeyRecord)
    ensures ReadKey(r.id, BindKey(r)) == r <==> KeyFits(r)
  {
    TimeRoundTrip(r.expiresAt);
    TimeRoundTrip(r.lastUsedAt);
    TimeRoundTrip(r.revokedAt);
    IntegersRoundTrip(r.createdAt);
  }

  /** A tenant record survives the database exactly when its optional times stay below 2^63; the
      quota limit survives for every `u64`. */
  lemma TenantRoundTrip(t: TenantInfo)
    ensures ReadTenant(t.id, BindTenant(t)) == t <==> TenantFits(t)
  {
    TimeRoundTrip(t.periodStart);
    TimeRoundTrip(t.periodEnd);
    TimeRoundTrip(t.suspendedAt);
    IntegersRoundTrip(t.createdAt);
    IntegersRoundTrip(t.quotaLimit);
  }

  lemma OriginRoundTrip(o: OriginInfo)
    ensures ReadOrigin(o.id, BindOrigin(o)) == o
  {
    IntegersRoundTrip(o.createdAt);
  }

  lemma DictionaryRoundTrip(d: DictionaryInfo)
    ensures ReadDictionary(d.code, BindDictionary(d)) == d
  {
    IntegersRoundTrip(d.createdAt);
  }

  /** Reading back what was read changes nothing. */
  lemma ReadIsStable(id: string, row: KeyRow)
    ensures KeyFits(ReadKey(id, row))
  {
  }
}
