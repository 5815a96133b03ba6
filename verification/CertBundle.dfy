/** The certificate bundle: a count and length-prefixed records sorted by subject name,
    indexed once and searched for the issuer of a certificate. */
module CertBundle {
  import opened Words

  const BUNDLE_HEADER_OFFSET := 2
  const CRT_HEADER_OFFSET := 4

  const X509_FATAL_ERROR: int := -0x3000
  const BADCERT_NOT_TRUSTED: bv32 := 0x08
  const BADCERT_BAD_MD: bv32 := 0x4000

  // ---------------------------------------------------------------- the format

  datatype Record = Record(name: seq<Byte>, key: seq<Byte>)

  predicate Sized(rs: seq<Record>) {
    |rs| < 0x1_0000 && forall i | 0 <= i < |rs| :: |rs[i].name| < 0x1_0000 && |rs[i].key| < 0x1_0000
  }

  function Be16(n: nat): seq<Byte>
    requires n < 0x1_0000
  {
    [n / 0x100, n % 0x100]
  }

  function GetBe16(hi: Byte, lo: Byte): Word16 { hi * 0x100 + lo }

  function RecordBytes(r: Record): seq<Byte>
    requires |r.name| < 0x1_0000 && |r.key| < 0x1_0000
  {
    Be16(|r.name|) + Be16(|r.key|) + r.name + r.key
  }

  function RecordsBytes(rs: seq<Record>): seq<Byte>
    requires Sized(rs)
  {
    if rs == [] then [] else RecordsBytes(rs[..|rs| - 1]) + RecordBytes(rs[|rs| - 1])
  }

  function BundleBytes(rs: seq<Record>): seq<Byte>
    requires Sized(rs)
  {
    Be16(|rs|) + RecordsBytes(rs)
  }

  /** Where record `i` starts; `Offset(rs, |rs|)` is the end of the bundle. */
  function Offset(rs: seq<Record>, i: nat): nat
    requires Sized(rs) && i <= |rs|
  {
    BUNDLE_HEADER_OFFSET + |RecordsBytes(rs[..i])|
  }

  lemma {:induction false} RecordInBundle(rs: seq<Record>, i: nat)
    requires Sized(rs) && i < |rs|
    ensures RecordsBytes(rs[..i]) + RecordBytes(rs[i]) == RecordsBytes(rs[..i + 1]) <= RecordsBytes(rs)
    decreases |rs|
  {
    assert rs[..i + 1][..i] == rs[..i];
    if i + 1 == |rs| {
      assert rs[..i + 1] == rs;
    } else {
      var front := rs[..|rs| - 1];
      RecordInBundle(front, i);
      assert front[..i + 1] == rs[..i + 1] && front[..i] == rs[..i];
    }
  }

  /** The record that starts at `at`, as the callback reads it. */
  function NameLen(bundle: seq<Byte>, at: nat): nat
    requires at + CRT_HEADER_OFFSET <= |bundle|
  {
    GetBe16(bundle[at], bundle[at + 1])
  }

  function KeyLen(bundle: seq<Byte>, at: nat): nat
    requires at + CRT_HEADER_OFFSET <= |bundle|
  {
    GetBe16(bundle[at + 2], bundle[at + 3])
  }

  predicate HoldsRecord(bundle: seq<Byte>, at: nat, r: Record) {
    && at + CRT_HEADER_OFFSET + |r.name| + |r.key| <= |bundle|
    && NameLen(bundle, at) == |r.name| && KeyLen(bundle, at) == |r.key|
    && bundle[at + CRT_HEADER_OFFSET..][..|r.name|] == r.name
    && bundle[at + CRT_HEADER_OFFSET + |r.name|..][..|r.key|] == r.key
  }

  lemma RecordBytesHold(bundle: seq<Byte>, at: nat, r: Record)
    requires |r.name| < 0x1_0000 && |r.key| < 0x1_0000
    requires at + |RecordBytes(r)| <= |bundle| && bundle[at..][..|RecordBytes(r)|] == RecordBytes(r)
    ensures HoldsRecord(bundle, at, r)
  {
    var record := RecordBytes(r);
    assert |record| == CRT_HEADER_OFFSET + |r.name| + |r.key|;
    assert forall k :: 0 <= k < |record| ==> bundle[at + k] == bundle[at..][..|record|][k];
    assert record[CRT_HEADER_OFFSET..][..|r.name|] == r.name;
    assert record[CRT_HEADER_OFFSET + |r.name|..] == r.key;
  }

  /** Record `i` lies at `Offset(rs, i)`, and ends where the next one starts. */
  lemma RecordAtOffset(rs: seq<Record>, i: nat, bundle: seq<Byte>)
    requires Sized(rs) && i < |rs| && BundleBytes(rs) <= bundle
    ensures HoldsRecord(bundle, Offset(rs, i), rs[i])
    ensures Offset(rs, i + 1) == Offset(rs, i) + CRT_HEADER_OFFSET + |rs[i].name| + |rs[i].key|
  {
    RecordInBundle(rs, i);
    var before, record := RecordsBytes(rs[..i]), RecordBytes(rs[i]);
    var prefix := Be16(|rs|) + (before + record);
    assert prefix <= BundleBytes(rs);
    assert prefix <= bundle;
    var at := Offset(rs, i);
    assert bundle[at..][..|record|] == record by {
      assert prefix[at..] == record;
      assert bundle[..|prefix|] == prefix;
      assert bundle[at..][..|record|] == bundle[..|prefix|][at..];
    }
    RecordBytesHold(bundle, at, rs[i]);
  }

  lemma CountInBundle(rs: seq<Record>, bundle: seq<Byte>)
    requires Sized(rs) && BundleBytes(rs) <= bundle
    ensures BUNDLE_HEADER_OFFSET <= |bundle| && GetBe16(bundle[0], bundle[1]) == |rs|
  {
    assert bundle[..|BundleBytes(rs)|][..2] == Be16(|rs|);
  }

  // ---------------------------------------------------------------- byte order

  /** The order of `sorted` on byte strings. */
  predicate LexLess(a: seq<Byte>, b: seq<Byte>) {
    b != [] && (a == [] || a[0] < b[0] || (a[0] == b[0] && LexLess(a[1..], b[1..])))
  }

  lemma {:induction false} Irreflexive(a: seq<Byte>)
    ensures !LexLess(a, a)
  {
    if a != [] { Irreflexive(a[1..]); }
  }

  /** It is a strict order of all byte strings. */
  lemma {:induction false} LexLessIsTotal(a: seq<Byte>, b: seq<Byte>)
    ensures LexLess(a, b) || LexLess(b, a) || a == b
    ensures !(LexLess(a, b) && LexLess(b, a)) && !LexLess(a, a)
    decreases |a| + |b|
  {
    if a != [] && b != [] {
      assert a == [a[0]] + a[1..] && b == [b[0]] + b[1..];
      LexLessIsTotal(a[1..], b[1..]);
    }
    if a != [] { Irreflexive(a); }
  }

  lemma {:induction false} LexLessIsTransitive(a: seq<Byte>, b: seq<Byte>, c: seq<Byte>)
    requires LexLess(a, b) && LexLess(b, c)
    ensures LexLess(a, c)
  {
    if a != [] && a[0] == b[0] == c[0] { LexLessIsTransitive(a[1..], b[1..], c[1..]); }
  }

  /** The first difference of `a` and `b` is at `k`, and `a` is smaller there. */
  predicate DiffersBelow(a: seq<Byte>, b: seq<Byte>, k: nat) {
    k < |a| && k < |b| && a[..k] == b[..k] && a[k] < b[k]
  }

  predicate ByteSorted(rs: seq<Record>) {
    forall i, j | 0 <= i < j < |rs| :: LexLess(rs[i].name, rs[j].name)
  }

  predicate PrefixFree(rs: seq<Record>) {
    forall i, j | 0 <= i < |rs| && 0 <= j < |rs| && i != j :: !(rs[i].name <= rs[j].name)
  }

  /** The issuer does not end inside a name. */
  predicate EndsInNoName(issuer: seq<Byte>, rs: seq<Record>) {
    forall i | 0 <= i < |rs| :: !(issuer < rs[i].name)
  }

  lemma {:induction false} LexLessDiffers(a: seq<Byte>, b: seq<Byte>) returns (k: nat)
    requires LexLess(a, b) && !(a <= b)
    ensures DiffersBelow(a, b, k)
  {
    if a[0] < b[0] {
      k := 0;
    } else {
      assert !(a[1..] <= b[1..]) by { assert a == [a[0]] + a[1..] && b == [b[0]] + b[1..]; }
      k := LexLessDiffers(a[1..], b[1..]);
      assert a[..k + 1] == [a[0]] + a[1..][..k] && b[..k + 1] == [b[0]] + b[1..][..k];
      k := k + 1;
    }
  }

  /** `memcmp`: the difference of the first bytes that differ, or 0. */
  function Memcmp(a: seq<Byte>, b: seq<Byte>, n: nat): int
    requires n <= |a| && n <= |b|
  {
    if n == 0 then 0 else if a[0] != b[0] then a[0] as int - b[0] as int else Memcmp(a[1..], b[1..], n - 1)
  }

  lemma {:induction false} MemcmpFirstDifference(a: seq<Byte>, b: seq<Byte>, n: nat) returns (k: nat)
    requires n <= |a| && n <= |b|
    ensures k <= n && a[..k] == b[..k]
    ensures Memcmp(a, b, n) == if k == n then 0 else a[k] as int - b[k] as int
    ensures k < n ==> a[k] != b[k]
  {
    if n == 0 || a[0] != b[0] {
      k := 0;
    } else {
      k := MemcmpFirstDifference(a[1..], b[1..], n - 1);
      assert a[..k + 1] == [a[0]] + a[1..][..k] && b[..k + 1] == [b[0]] + b[1..][..k];
      k := k + 1;
    }
  }

  /** No name can begin the issuer on the far side of a name that differs from it. */
  lemma FarSide(issuer: seq<Byte>, name: seq<Byte>, other: seq<Byte>, k: nat, l: nat)
    requires (DiffersBelow(issuer, name, k) && DiffersBelow(name, other, l))
          || (DiffersBelow(name, issuer, k) && DiffersBelow(other, name, l))
    ensures !(other <= issuer)
  {
  }

  // ---------------------------------------------------------------- search

  /** Integer division of C, toward zero. */
  function Half(n: int): int { if n >= 0 then n / 2 else -(-n / 2) }

  lemma PrefixesOfOne(a: seq<Byte>, b: seq<Byte>, text: seq<Byte>)
    requires a <= text && b <= text
    ensures a <= b || b <= a
  {
  }

  /** Two names that both begin the issuer would be prefixes of one another. */
  lemma OneNameBegins(rs: seq<Record>, i: nat, j: nat, issuer: seq<Byte>)
    requires PrefixFree(rs) && i < |rs| && j < |rs| && rs[i].name <= issuer && rs[j].name <= issuer
    ensures i == j
  {
    PrefixesOfOne(rs[i].name, rs[j].name, issuer);
  }

  lemma OnlyOneChecks(rs: seq<Record>, m: nat, issuer: seq<Byte>, check: seq<Byte> -> int)
    requires PrefixFree(rs) && m < |rs| && rs[m].name <= issuer
    ensures (exists i :: 0 <= i < |rs| && rs[i].name <= issuer && check(rs[i].key) == 0) <==> check(rs[m].key) == 0
  {
    forall i | 0 <= i < |rs| && rs[i].name <= issuer
      ensures i == m
    {
      OneNameBegins(rs, i, m, issuer);
    }
  }

  /** A name that agrees with the memory at the issuer up to `k` either agrees with the
      issuer that far or is longer than it. */
  lemma AgreesUpTo(issuer: seq<Byte>, text: seq<Byte>, name: seq<Byte>, k: nat)
    requires issuer <= text && k <= |text| && k <= |name| && text[..k] == name[..k]
    ensures if k <= |issuer| then issuer[..k] == name[..k] else issuer < name
  {
    if k <= |issuer| {
      assert issuer[..k] == text[..k];
    } else {
      assert issuer == text[..k][..|issuer|] == name[..|issuer|];
    }
  }

  /** What one comparison of the search tells about the names. */
  lemma Compared(rs: seq<Record>, m: nat, issuer: seq<Byte>, beyond: seq<Byte>)
    requires Sized(rs) && ByteSorted(rs) && PrefixFree(rs) && EndsInNoName(issuer, rs)
    requires m < |rs| && 0xFFFF <= |beyond|
    ensures var cmp := Memcmp(issuer + beyond, rs[m].name, |rs[m].name|);
      && (cmp == 0 <==> rs[m].name <= issuer)
      && (cmp < 0 ==> forall i | m <= i < |rs| :: !(rs[i].name <= issuer))
      && (cmp > 0 ==> forall i | 0 <= i <= m :: !(rs[i].name <= issuer))
  {
    var name := rs[m].name;
    var text := issuer + beyond;
    var k := MemcmpFirstDifference(text, name, |name|);
    AgreesUpTo(issuer, text, name, k);
    assert !(issuer < name);
    if k < |name| {
      assert k < |issuer| by { AgreesUpTo(issuer, text, name, k); assert issuer != name[..k]; }
      forall i | 0 <= i < |rs| && i != m && (if text[k] < name[k] then m < i else i < m)
        ensures !(rs[i].name <= issuer)
      {
        var l: nat;
        if m < i { l := LexLessDiffers(name, rs[i].name); } else { l := LexLessDiffers(rs[i].name, name); }
        FarSide(issuer, name, rs[i].name, k, l);
      }
    }
  }

  class CrtBundle {
    var bundle: seq<Byte>
    var crts: array?<nat>
    var numCerts: Word16

    /** The index of the bundle of `rs`. */
    ghost predicate Indexes(rs: seq<Record>)
      reads this, crts
    {
      && Sized(rs) && BundleBytes(rs) <= bundle
      && crts != null && numCerts == crts.Length == |rs|
      && forall i | 0 <= i < |rs| :: crts[i] == Offset(rs, i)
    }

    /** `esp_crt_bundle_set`; `memory` says whether the index can be allocated. */
    method Init(x509: seq<Byte>, memory: bool, ghost rs: seq<Record>) returns (ok: bool)
      requires Sized(rs) && BundleBytes(rs) <= x509
      modifies this
      ensures ok == memory && bundle == x509
      ensures if ok then Indexes(rs) && fresh(crts) else crts == null
    {
      bundle := x509;
      crts := null;
      CountInBundle(rs, x509);
      numCerts := GetBe16(x509[0], x509[1]);
      if !memory {
        return false;
      }
      var index := new nat[numCerts];
      var cur := BUNDLE_HEADER_OFFSET;
      assert rs[..0] == [];
      for i := 0 to numCerts
        invariant cur == Offset(rs, i)
        invariant forall j | 0 <= j < i :: index[j] == Offset(rs, j)
        modifies index
      {
        RecordAtOffset(rs, i, x509);
        index[i] := cur;
        var nameLen := GetBe16(x509[cur], x509[cur + 1]);
        var keyLen := GetBe16(x509[cur + 2], x509[cur + 3]);
        cur := cur + CRT_HEADER_OFFSET + nameLen + keyLen;
      }
      crts := index;
      return true;
    }

    /** The binary search.  `beyond` is whatever memory follows the issuer. */
    method Find(issuer: seq<Byte>, beyond: seq<Byte>, ghost rs: seq<Record>) returns (found: bool, middle: int)
      requires Indexes(rs) && ByteSorted(rs) && PrefixFree(rs) && EndsInNoName(issuer, rs)
      requires 0xFFFF <= |beyond|
      ensures found <==> exists i :: 0 <= i < |rs| && rs[i].name <= issuer
      ensures found ==> 0 <= middle < |rs| && rs[middle].name <= issuer
    {
      found := false;
      var start, end := 0, numCerts - 1;
      middle := Half(end - start);
      while start <= end
        invariant 0 <= start && end < |rs| && start <= end + 1
        invariant start <= end ==> start <= middle <= end
        invariant forall i | 0 <= i < |rs| && (i < start || end < i) :: !(rs[i].name <= issuer)
        decreases end - start
      {
        RecordAtOffset(rs, middle, bundle);
        var crt := crts[middle];
        var nameLen := GetBe16(bundle[crt], bundle[crt + 1]);
        var name := bundle[crt + CRT_HEADER_OFFSET..][..nameLen];
        var cmp := Memcmp(issuer + beyond, name, nameLen);
        Compared(rs, middle, issuer, beyond);
        if cmp == 0 {
          found := true;
          break;
        } else if cmp < 0 {
          end := middle - 1;
        } else {
          start := middle + 1;
        }
        middle := Half(start + end);
      }
    }

    /** `esp_crt_verify_callback`; `check` is the signature check with a public key. */
    method Verify(issuer: seq<Byte>, beyond: seq<Byte>, check: seq<Byte> -> int, flags: bv32, ghost rs: seq<Record>)
      returns (ret: int, flags': bv32)
      requires crts != null ==> Indexes(rs) && ByteSorted(rs) && PrefixFree(rs) && EndsInNoName(issuer, rs)
      requires 0xFFFF <= |beyond|
      ensures flags & !0x4000 != 0x08 ==> ret == 0 && flags' == flags
      ensures flags & !0x4000 == 0x08 ==>
        if crts != null && exists i :: 0 <= i < |rs| && rs[i].name <= issuer && check(rs[i].key) == 0
        then ret == 0 && flags' == 0
        else ret == X509_FATAL_ERROR && flags' == flags
    {
      hide ByteSorted, PrefixFree, EndsInNoName;
      flags' := flags;
      var filtered := flags & !BADCERT_BAD_MD;
      if filtered != BADCERT_NOT_TRUSTED {
        return 0, flags;
      }
      if crts == null {
        return X509_FATAL_ERROR, flags;
      }
      var found, middle := Find(issuer, beyond, rs);
      ret := X509_FATAL_ERROR;
      if found {
        RecordAtOffset(rs, middle, bundle);
        var crt := crts[middle];
        var nameLen := GetBe16(bundle[crt], bundle[crt + 1]);
        var keyLen := GetBe16(bundle[crt + 2], bundle[crt + 3]);
        ret := check(bundle[crt + CRT_HEADER_OFFSET + nameLen..][..keyLen]);
        OnlyOneChecks(rs, middle, issuer, check);
      }
      if ret == 0 {
        return 0, 0;
      }
      return X509_FATAL_ERROR, flags;
    }
  }
}
