/**
 The link record of internal/model/shorturl.go and the predicates and checks every service
 decision rests on. Times are integers; `expireAt == None` is the zero time.
 */
module Link {
  import opened Wrappers
  import opened Whitespace

  datatype Link = Link(
    code: string,
    rawURL: string,
    createdAt: int,
    expireAt: Option<int>,
    maxVisits: int,
    visits: int,
    custom: bool,
    disabled: bool,
    remark: string)
  {
    // Strictly after the deadline.
    predicate IsExpired(now: int) {
      expireAt.Some? && now > expireAt.value
    }

    predicate ExceedsMaxVisits() {
      maxVisits > 0 && visits >= maxVisits
    }

    predicate IsInvalid(now: int) {
      disabled || IsExpired(now) || ExceedsMaxVisits()
    }
  }

  predicate IsCodeChar(c: char) {
    'a' <= c <= 'z' || 'A' <= c <= 'Z' || '0' <= c <= '9' || c == '-' || c == '_'
  }

  // The check is made on the trimmed code; the code itself is stored and looked up untrimmed.
  predicate ValidCode(code: string) {
    var c := TrimSpace(code);
    2 <= |c| <= 32 && forall i :: 0 <= i < |c| ==> IsCodeChar(c[i])
  }

  // Validate, for a given verdict on the raw URL.
  predicate ValidLink(u: Link, rawOk: string -> bool) {
    && ValidCode(u.code)
    && rawOk(u.rawURL)
    && (u.expireAt.Some? ==> u.createdAt <= u.expireAt.value)
    && u.maxVisits >= 0
  }
}
