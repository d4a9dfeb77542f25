/** The rows the application keeps and the values its layers pass to each other. */
module Domain {
  import opened Calendar

  datatype Details = Details(
    name: string, provider: string, kind: string, status: string,
    accountNumber: string, owner: string, notes: string)

  /** Timestamps are seconds; `pointsUpdatedAt` is meant to follow the balance only. */
  datatype Account = Account(
    id: int, details: Details, balance: int, expiration: Date, doesNotExpire: bool,
    createdAt: int, updatedAt: int, pointsUpdatedAt: int)

  /** The user-editable fields, as the form handler hands them to create and update. */
  datatype Input = Input(details: Details, balance: int, expiration: Date, doesNotExpire: bool)

  datatype Threshold = Threshold(id: int, daysBefore: int, enabled: bool)

  datatype SentKey = SentKey(accountId: int, thresholdId: int, date: Date)

  datatype Pending = Pending(account: Account, threshold: Threshold)

  function KeyOf(p: Pending): SentKey {
    SentKey(p.account.id, p.threshold.id, p.account.expiration)
  }

  function KeysOf(ps: seq<Pending>): set<SentKey> {
    set p | p in ps :: KeyOf(p)
  }

  const KINDS: seq<string> := ["Airline", "Hotel", "Credit Card", "Other"]

  predicate ValidKind(kind: string) {
    kind in KINDS
  }

  /** The date that is persisted: the sentinel when the account never expires. */
  function StoredExpiration(input: Input): Date {
    if input.doesNotExpire then NEVER_EXPIRES else input.expiration
  }

  /** What the form parser can produce: a never-expiring input carries Go's zero time.  That no
      real expiration date is 0001-01-01 is an assumption about users, not a check in the code. */
  ghost predicate FormShaped(input: Input) {
    if input.doesNotExpire then input.expiration == ZERO_DATE else input.expiration != ZERO_DATE
  }

  ghost predicate UniqueAccountIds(accts: seq<Account>) {
    forall i, j :: 0 <= i < j < |accts| ==> accts[i].id != accts[j].id
  }

  ghost predicate UniqueThresholdIds(ts: seq<Threshold>) {
    forall i, j :: 0 <= i < j < |ts| ==> ts[i].id != ts[j].id
  }
}
