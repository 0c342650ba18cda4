/** Values shared by every module: results, error classes, byte strings, patterns and the byte order on names. */
module Common {

  datatype Option<+T> = None | Some(value: T) {
    predicate IsFailure() { None? }
    function PropagateFailure<U>(): Option<U> requires None? { None }
    function Extract(): T requires Some? { value }
  }

  /**
   * The error classes a caller can tell apart with errors.Is, and MySQL's deadlock error 1213;
   * Failed stands for every other error.
   */
  datatype Error =
    | Invalid
    | Conflict
    | NotFound
    | OriginalsPurged
    | DigestMismatch
    | UntrustedSigner
    | Corrupt
    | Deadlocked
    | Failed

  datatype Result<+T> = Ok(value: T) | Err(error: Error) {
    predicate IsFailure() { Err? }
    function PropagateFailure<U>(): Result<U> requires Err? { Err(error) }
    function Extract(): T requires Ok? { value }
  }

  datatype Unit = Unit

  /** A byte is the character with the same code, so that Go strings and byte slices are both sequences of char. */
  type Bytes = s: string | IsBytes(s)

  predicate IsBytes(s: string) {
    forall i | 0 <= i < |s| :: s[i] as int < 256
  }

  predicate IsHexDigit(c: char) {
    '0' <= c <= '9' || 'a' <= c <= 'f'
  }

  /** ^[0-9a-f]{64}$ */
  predicate IsDigest(s: string) {
    |s| == 64 && forall i | 0 <= i < |s| :: IsHexDigit(s[i])
  }

  predicate IsAlphanumeric(c: char) {
    '0' <= c <= '9' || 'a' <= c <= 'z' || 'A' <= c <= 'Z'
  }

  predicate IsNameChar(c: char) {
    IsAlphanumeric(c) || c == '.' || c == '_' || c == '-'
  }

  /** ^[A-Za-z0-9][A-Za-z0-9._-]{0,63}$ */
  predicate IsName(s: string) {
    1 <= |s| <= 64 && IsAlphanumeric(s[0]) && forall i | 0 <= i < |s| :: IsNameChar(s[i])
  }

  /** Go's byte-wise string order. */
  predicate Less(a: string, b: string) {
    b != [] && (a == [] || a[0] < b[0] || (a[0] == b[0] && Less(a[1..], b[1..])))
  }

  lemma {:induction false} LessIrreflexive(a: string)
    ensures !Less(a, a)
  {
    if a != [] {
      LessIrreflexive(a[1..]);
    }
  }

  lemma {:induction false} LessTransitive(a: string, b: string, c: string)
    requires Less(a, b) && Less(b, c)
    ensures Less(a, c)
  {
    if a != [] && a[0] == b[0] == c[0] {
      LessTransitive(a[1..], b[1..], c[1..]);
    }
  }

  lemma {:induction false} LessTotal(a: string, b: string)
    ensures a == b || Less(a, b) || Less(b, a)
  {
    if a != [] && b != [] && a[0] == b[0] {
      LessTotal(a[1..], b[1..]);
      if a[1..] == b[1..] {
        assert a == [a[0]] + a[1..] == [b[0]] + b[1..] == b;
      }
    }
  }

  /** Byte order: a proper prefix comes first, and otherwise the first byte that differs decides. */
  lemma {:induction false} LessExact(a: string, b: string)
    ensures Less(a, b) <==>
            exists k | 0 <= k <= |a| && k < |b| :: a[..k] == b[..k] && (k == |a| || a[k] as int < b[k] as int)
    decreases a
  {
    if Less(a, b) {
      var k := Decisive(a, b);
      assert a[..k] == b[..k];
    }
    if k :| 0 <= k <= |a| && k < |b| && a[..k] == b[..k] && (k == |a| || a[k] as int < b[k] as int) {
      Decided(a, b, k);
    }
  }

  lemma {:induction false} Decisive(a: string, b: string) returns (k: nat)
    requires Less(a, b)
    ensures k <= |a| && k < |b| && a[..k] == b[..k] && (k == |a| || a[k] as int < b[k] as int)
    decreases a
  {
    if a == "" || a[0] != b[0] {
      k := 0;
    } else {
      k := Decisive(a[1..], b[1..]);
      assert a[..k + 1] == [a[0]] + a[1..][..k] && b[..k + 1] == [b[0]] + b[1..][..k];
      k := k + 1;
    }
  }

  lemma {:induction false} Decided(a: string, b: string, k: nat)
    requires k <= |a| && k < |b| && a[..k] == b[..k] && (k == |a| || a[k] as int < b[k] as int)
    ensures Less(a, b)
    decreases a
  {
    if k > 0 {
      assert a[0] == a[..k][0] == b[..k][0] == b[0];
      assert a[1..][..k - 1] == a[..k][1..] == b[..k][1..] == b[1..][..k - 1];
      Decided(a[1..], b[1..], k - 1);
    }
  }

  /** An element of multiplicity one has one position. */
  lemma OnlyOnce<T>(s: seq<T>, i: nat, j: nat)
    requires i < j < |s| && multiset(s)[s[i]] <= 1
    ensures s[i] != s[j]
  {
    assert s == s[..j] + s[j..];
    assert multiset(s)[s[i]] == multiset(s[..j])[s[i]] + multiset(s[j..])[s[i]];
    assert s[..j][i] == s[i] && s[i] in multiset(s[..j]);
    assert s[i] !in multiset(s[j..]) && s[j..][0] == s[j];
  }

  predicate NoDuplicates<T(==)>(s: seq<T>) {
    forall i, j | 0 <= i < j < |s| :: s[i] != s[j]
  }
}
