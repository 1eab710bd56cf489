/** The text layer of the DNS tunnel: splitting, dotted names, decimal labels, the query names
    the client sends (internal/mesh/dns.go) and the labels the relay reads
    (cmd/dns-relay/main.go). */
module DnsNames {
  import opened Bytes
  import opened Reassembly
  import Base32

  const CHUNK: nat := 55
  const DATA_LABELS: nat := 3
  const MAX_TOTAL: nat := 100

  // ----- splitString -----

  function Split(s: string, size: nat): (parts: seq<string>)
    requires size > 0
    ensures parts != []
    decreases |s|
  {
    if |s| <= size then [s] else [s[..size]] + Split(s[size..], size)
  }

  method SplitString(s: string, size: nat) returns (parts: seq<string>)
    requires size > 0
    ensures parts == Split(s, size)
  {
    parts := [];
    var rest, n := s, size;
    while |rest| > 0
      invariant n == size || rest == []
      invariant rest == [] ==> (parts == [] && s == []) || parts == Split(s, size)
      invariant rest != [] ==> parts + Split(rest, size) == Split(s, size)
      decreases |rest|
    {
      if |rest| < n { n := |rest|; }
      ghost var before := rest;
      parts := parts + [rest[..n]];
      rest := rest[n..];
      assert before[..|before|] == before;
      if |before| > size {
        assert Split(before, size) == [before[..size]] + Split(rest, size);
      }
    }
    if |parts| == 0 { parts := [""]; }
  }

  lemma {:induction false} SplitFacts(s: string, size: nat)
    requires size > 0
    ensures Concat(Split(s, size)) == s
    ensures forall i :: 0 <= i < |Split(s, size)| ==> |Split(s, size)[i]| <= size
    decreases |s|
  {
    var ps := Split(s, size);
    if |s| <= size {
      assert ps[..0] == [];
    } else {
      SplitFacts(s[size..], size);
      ConcatCons(s[..size], Split(s[size..], size));
      assert s == s[..size] + s[size..];
    }
  }

  lemma {:induction false} SplitInAlphabet(s: string, size: nat)
    requires size > 0 && Base32.AllInAlphabet(s)
    ensures forall i :: 0 <= i < |Split(s, size)| ==> Base32.AllInAlphabet(Split(s, size)[i])
    decreases |s|
  {
    if |s| > size { SplitInAlphabet(s[size..], size); }
  }

  lemma {:induction false} ConcatCons(p: string, ps: seq<string>)
    ensures Concat([p] + ps) == p + Concat(ps)
  {
    if ps == [] {
      assert [p] + ps == [p];
      assert [p][..0] == [];
    } else {
      var n := |ps| - 1;
      assert ([p] + ps)[..|[p] + ps| - 1] == [p] + ps[..n];
      ConcatCons(p, ps[..n]);
    }
  }

  // ----- dotted names -----

  predicate NoDot(s: string) { '.' !in s }

  function Join(ls: seq<string>): string
    requires ls != []
  {
    if |ls| == 1 then ls[0] else ls[0] + ("." + Join(ls[1..]))
  }

  /** strings.Split(s, "."). */
  function SplitDots(s: string): (ls: seq<string>)
    ensures ls != []
  {
    if s == [] then [""]
    else if s[0] == '.' then [""] + SplitDots(s[1..])
    else
      var r := SplitDots(s[1..]);
      [[s[0]] + r[0]] + r[1..]
  }

  lemma {:induction false} SplitFirst(l: string, t: string)
    requires NoDot(l)
    ensures SplitDots(l + ("." + t)) == [l] + SplitDots(t)
  {
    if l == [] {
      assert l + ("." + t) == "." + t;
      assert ("." + t)[1..] == t;
    } else {
      assert (l + ("." + t))[1..] == l[1..] + ("." + t);
      SplitFirst(l[1..], t);
      assert [l[0]] + l[1..] == l;
    }
  }

  lemma {:induction false} SplitNoDot(l: string)
    requires NoDot(l)
    ensures SplitDots(l) == [l]
  {
    if l != [] {
      SplitNoDot(l[1..]);
      assert [l[0]] + l[1..] == l;
    }
  }

  /** Splitting undoes joining. */
  lemma {:induction false} SplitJoin(ls: seq<string>)
    requires ls != [] && forall i :: 0 <= i < |ls| ==> NoDot(ls[i])
    ensures SplitDots(Join(ls)) == ls
  {
    if |ls| == 1 {
      SplitNoDot(ls[0]);
    } else {
      SplitFirst(ls[0], Join(ls[1..]));
      SplitJoin(ls[1..]);
      assert ls == [ls[0]] + ls[1..];
    }
  }

  lemma {:induction false} JoinEnd(ls: seq<string>)
    requires ls != [] && ls[|ls| - 1] != []
    ensures Join(ls) != [] && Join(ls)[|Join(ls)| - 1] == ls[|ls| - 1][|ls[|ls| - 1]| - 1]
  {
    if |ls| > 1 { JoinEnd(ls[1..]); }
  }

  predicate HasSuffix(s: string, t: string) { |s| >= |t| && s[|s| - |t|..] == t }

  function TrimSuffix(s: string, t: string): string {
    if HasSuffix(s, t) then s[..|s| - |t|] else s
  }

  /** handleDNS: the labels in front of the relay's own domain. */
  function CommandLabels(qname: string, domain: string): Option<seq<string>> {
    if !HasSuffix(qname, domain) then None
    else Some(SplitDots(TrimSuffix(TrimSuffix(qname, "." + domain), ".")))
  }

  /** The relay looks at exactly the names that end in its domain. */
  lemma OnlyOwnDomain(qname: string, domain: string)
    ensures CommandLabels(qname, domain).Some? <==> exists front: string :: qname == front + domain
  {
    if CommandLabels(qname, domain).Some? { assert qname == qname[..|qname| - |domain|] + domain; }
    forall front: string ensures HasSuffix(front + domain, domain) {
      assert (front + domain)[|front|..] == domain;
    }
  }

  lemma LabelsOfName(ls: seq<string>, domain: string)
    requires ls != [] && ls[|ls| - 1] != [] && forall i :: 0 <= i < |ls| ==> NoDot(ls[i])
    ensures CommandLabels(Join(ls) + ("." + domain), domain) == Some(ls)
  {
    var name := Join(ls) + ("." + domain);
    assert name == (Join(ls) + ".") + domain;
    assert name[|name| - |domain|..] == domain;
    assert name[|name| - |"." + domain|..] == "." + domain;
    assert TrimSuffix(name, "." + domain) == Join(ls);
    JoinEnd(ls);
    assert !HasSuffix(Join(ls), ".");
    SplitJoin(ls);
  }

  // ----- decimal -----

  predicate IsDigit(c: char) { '0' <= c <= '9' }

  predicate AllDigits(s: string) { forall i :: 0 <= i < |s| ==> IsDigit(s[i]) }

  function DigitVal(c: char): nat
    requires IsDigit(c)
  { c as int - 48 }

  function DigitChars(ds: seq<nat>): (s: string)
    requires IsDigits(10, ds)
    ensures |s| == |ds| && AllDigits(s)
  { seq(|ds|, i requires 0 <= i < |ds| => (48 + ds[i]) as char) }

  function DigitVals(s: string): (ds: seq<nat>)
    requires AllDigits(s)
    ensures |ds| == |s| && IsDigits(10, ds)
  { seq(|s|, i requires 0 <= i < |s| => DigitVal(s[i])) }

  /** %d of a natural number. */
  function Dec(n: nat): (s: string)
    ensures AllDigits(s) && s != []
  {
    if n == 0 then "0" else DigitChars(Digits(10, n))
  }

  /** The leading digits of a string. */
  function LeadingDigits(s: string): (d: string)
    ensures AllDigits(d)
  {
    if s == [] || !IsDigit(s[0]) then [] else [s[0]] + LeadingDigits(s[1..])
  }

  /** Sscanf("%d"): an optional sign and digits; the variable stays 0 when there is none. */
  function Scan(s: string): int {
    if s != [] && s[0] == '-' then -(Value(10, DigitVals(LeadingDigits(s[1..]))) as int)
    else if s != [] && s[0] == '+' then Value(10, DigitVals(LeadingDigits(s[1..])))
    else Value(10, DigitVals(LeadingDigits(s)))
  }

  lemma {:induction false} LeadingAll(s: string)
    requires AllDigits(s)
    ensures LeadingDigits(s) == s
  {
    if s != [] {
      LeadingAll(s[1..]);
      assert s == [s[0]] + s[1..];
    }
  }

  lemma ScanDec(n: nat)
    ensures Scan(Dec(n)) == n
  {
    var s := Dec(n);
    LeadingAll(s);
    if n > 0 {
      assert DigitVals(s) == Digits(10, n);
      ValueOfDigits(10, n);
    } else {
      assert DigitVals("0") == [0];
      assert [0][..0] == [];
      assert Value(10, [0]) == 0;
    }
  }

  /** n < 10^k has at most k digits, n >= 10^(k-1) at least k. */
  lemma DecLength(n: nat, k: nat)
    requires k > 0
    ensures n < Pow(10, k) ==> |Dec(n)| <= k
    ensures n > 0 && n >= Pow(10, k - 1) ==> |Dec(n)| >= k
  {
    if 0 < n < Pow(10, k) { DigitCount(10, n, 0, k); }
    if n > 0 && n >= Pow(10, k - 1) { AtLeastDigits(n, k); }
  }

  lemma AtLeastDigits(n: nat, k: nat)
    requires k > 0 && n >= Pow(10, k - 1)
    ensures |Digits(10, n)| >= k
  {
    ValueOfDigits(10, n);
    ValueBound(10, Digits(10, n));
    if |Digits(10, n)| < k { PowMonotone(10, |Digits(10, n)|, k - 1); }
  }

  lemma TenPowers()
    ensures Pow(10, 1) == 10 && Pow(10, 2) == 100 && Pow(10, 3) == 1000
    ensures Pow(10, 9) == 1_000_000_000 && Pow(10, 10) == 10_000_000_000
  {
    assert Pow(10, 3) == 1000;
    PowAdd(10, 3, 3);
    PowAdd(10, 6, 3);
    assert Pow(10, 10) == 10 * Pow(10, 9);
  }

  lemma DecFacts(n: nat)
    ensures NoDot(Dec(n))
    ensures n < 0x1_0000_0000 ==> |Dec(n)| <= 10
  {
    TenPowers();
    DecLength(n, 10);
  }

  lemma DecInjective(n: nat, k: nat)
    requires Dec(n) == Dec(k)
    ensures n == k
  {
    ScanDec(n);
    ScanDec(k);
  }

  /** %d of an integer. */
  function DecInt(n: int): string { if n < 0 then "-" + Dec(-n) else Dec(n) }

  // ----- reassembly keys -----

  /** The client's key "%s-%d". */
  function ClientKey(session: string, seqNo: int): string { session + ("-" + DecInt(seqNo)) }

  /** The relay's key "%s-s%d"; its numbers are never negative. */
  function RelayKey(session: string, seqNo: nat): string { session + ("-s" + Dec(seqNo)) }

  /** The digits behind the last separator are found again. */
  lemma LastSeparator(a: string, d: string, b: string, e: string, sep: string)
    requires AllDigits(d) && AllDigits(e) && sep != [] && !IsDigit(sep[|sep| - 1])
    requires a + (sep + d) == b + (sep + e)
    ensures a == b && d == e
  {
    DigitTail(a, d, sep);
    DigitTail(b, e, sep);
    var (s, t) := (a + (sep + d), b + (sep + e));
    assert |d| == |e|;
    assert s[..|a|] == a && t[..|b|] == b && s[|s| - |d|..] == d && t[|t| - |e|..] == e;
  }

  lemma DigitTail(a: string, d: string, sep: string)
    requires AllDigits(d) && sep != [] && !IsDigit(sep[|sep| - 1])
    ensures var s := a + (sep + d);
      !IsDigit(s[|s| - 1 - |d|]) && forall j :: |s| - |d| <= j < |s| ==> IsDigit(s[j])
  {}

  /** The relay's key is as good as the pair of session and number. */
  lemma RelayKeyInjective(s: string, n: nat, t: string, k: nat)
    ensures RelayKey(s, n) == RelayKey(t, k) <==> (s, n) == (t, k)
  {
    if RelayKey(s, n) == RelayKey(t, k) {
      LastSeparator(s, Dec(n), t, Dec(k), "-s");
      DecInjective(n, k);
    }
  }

  function Abs(n: int): nat { if n < 0 then -n else n }

  /** The session, with the sign of a negative number. */
  function Signed(session: string, n: int): string { if n < 0 then session + "-" else session }

  lemma ClientKeyShape(s: string, n: int)
    ensures ClientKey(s, n) == Signed(s, n) + ("-" + Dec(Abs(n)))
  {
    if n < 0 { assert s + ("-" + ("-" + Dec(-n))) == (s + "-") + ("-" + Dec(-n)); }
  }

  /** The client's key is not: two different pairs share a key exactly when one number is the
      negative of the other and the session of the positive one has an extra dash. */
  lemma ClientKeysCollide(s: string, n: int, t: string, k: int)
    ensures ClientKey(s, n) == ClientKey(t, k) <==>
      || (s, n) == (t, k)
      || (n < 0 && k == -n && t == s + "-")
      || (k < 0 && n == -k && s == t + "-")
  {
    SameClientKey(s, n, t, k);
    if n < 0 && k < 0 && Signed(s, n) == Signed(t, k) { assert s == (s + "-")[..|s|] && t == (t + "-")[..|t|]; }
  }

  lemma SameClientKey(s: string, n: int, t: string, k: int)
    ensures ClientKey(s, n) == ClientKey(t, k) <==> Signed(s, n) == Signed(t, k) && Abs(n) == Abs(k)
  {
    ClientKeyShape(s, n);
    ClientKeyShape(t, k);
    if ClientKey(s, n) == ClientKey(t, k) {
      LastSeparator(Signed(s, n), Dec(Abs(n)), Signed(t, k), Dec(Abs(k)), "-");
      DecInjective(Abs(n), Abs(k));
    }
  }

  // ----- data queries -----

  /** One data query: "{labels}.s{seq}.{i}.{total}.{session}.{domain}". */
  function QueryLabels(chunk: string, seqNo: nat, i: nat, total: nat, session: string): (ls: seq<string>)
    ensures ls != []
  {
    Split(chunk, CHUNK) + ["s" + Dec(seqNo), Dec(i), Dec(total), session]
  }

  function QueryName(chunk: string, seqNo: nat, i: nat, total: nat, session: string, domain: string): string {
    Join(QueryLabels(chunk, seqNo, i, total, session)) + ("." + domain)
  }

  /** All the queries of a frame, in order. */
  function FrameChunks(frame: seq<byte>): (cs: seq<string>)
    ensures cs != []
  { Split(Base32.Encode(frame), CHUNK * DATA_LABELS) }

  function FrameQuery(frame: seq<byte>, seqNo: nat, i: nat, session: string, domain: string): string
    requires i < |FrameChunks(frame)|
  {
    QueryName(FrameChunks(frame)[i], seqNo, i, |FrameChunks(frame)|, session, domain)
  }

  /** The client's sendFrame, as the list of names it queries. */
  method SendFrame(frame: seq<byte>, seqNo: nat, session: string, domain: string) returns (names: seq<string>)
    ensures |names| == |FrameChunks(frame)|
    ensures forall i :: 0 <= i < |names| ==> names[i] == FrameQuery(frame, seqNo, i, session, domain)
  {
    var encoded := Base32.Encode(frame);
    var chunks := SplitString(encoded, CHUNK * DATA_LABELS);
    names := SendChunks(chunks, seqNo, session, domain);
  }

  method SendChunks(chunks: seq<string>, seqNo: nat, session: string, domain: string) returns (names: seq<string>)
    ensures |names| == |chunks|
    ensures forall i :: 0 <= i < |names| ==> names[i] == QueryName(chunks[i], seqNo, i, |chunks|, session, domain)
  {
    var total := |chunks|;
    names := [];
    for i := 0 to total
      invariant |names| == i
      invariant forall k :: 0 <= k < i ==> names[k] == QueryName(chunks[k], seqNo, k, total, session, domain)
    {
      var qname := BuildQuery(chunks[i], seqNo, i, total, session, domain);
      names := names + [qname];
    }
  }

  method BuildQuery(chunk: string, seqNo: nat, i: nat, total: nat, session: string, domain: string) returns (qname: string)
    ensures qname == QueryName(chunk, seqNo, i, total, session, domain)
  {
    var labels := SplitString(chunk, CHUNK);
    qname := Join(labels + ["s" + Dec(seqNo), Dec(i), Dec(total), session]) + ("." + domain);
  }

  predicate IsMarker(l: string) { |l| > 1 && l[0] == 's' && AllDigits(l[1..]) }

  /** The first label that is an s-number; the number of labels if there is none. */
  function MarkerIndex(ls: seq<string>): (k: nat)
    ensures k <= |ls|
    ensures k < |ls| ==> IsMarker(ls[k])
  {
    if ls == [] || IsMarker(ls[0]) then 0 else 1 + MarkerIndex(ls[1..])
  }

  type Key = (string, int)

  /** handleSend's reading of the labels.  Its key RelayKey is the pair here, which by
      RelayKeyInjective comes to the same. */
  function ReadSend(ls: seq<string>): Option<Chunk<Key, char, ()>> {
    var k := MarkerIndex(ls);
    if k < 1 || k + 3 >= |ls| then None else
      var idx, total := Scan(ls[k + 1]), Scan(ls[k + 2]);
      if total <= 0 || total > MAX_TOTAL || idx < 0 || idx >= total then None
      else Some(Chunk((ls[k + 3], Scan(ls[k][1..])), idx, total, Concat(ls[..k]), None))
  }

  method FindMarker(ls: seq<string>) returns (seqIdx: int)
    ensures MarkerIndex(ls) < |ls| ==> seqIdx == MarkerIndex(ls)
    ensures MarkerIndex(ls) == |ls| ==> seqIdx == -1
  {
    for i := 0 to |ls|
      invariant MarkerIndex(ls) == i + MarkerIndex(ls[i..])
    {
      var l := ls[i];
      assert ls[i..][1..] == ls[i + 1..];
      if |l| > 1 && l[0] == 's' {
        var isNum := true;
        for j := 1 to |l|
          invariant isNum && forall k :: 1 <= k < j ==> IsDigit(l[k])
        {
          if l[j] < '0' || l[j] > '9' {
            isNum := false;
            assert !IsDigit(l[1..][j - 1]);
            break;
          }
        }
        if isNum {
          return i;
        }
      }
    }
    seqIdx := -1;
  }

  lemma {:induction false} MarkerAfterData(ds: seq<string>, marker: string, rest: seq<string>)
    requires IsMarker(marker) && forall i :: 0 <= i < |ds| ==> !IsMarker(ds[i])
    ensures MarkerIndex(ds + ([marker] + rest)) == |ds|
  {
    if ds == [] {
      assert ds + ([marker] + rest) == [marker] + rest;
    } else {
      assert (ds + ([marker] + rest))[1..] == ds[1..] + ([marker] + rest);
      MarkerAfterData(ds[1..], marker, rest);
    }
  }

  /** Labels cut from base32hex text contain no dot, are no marker and are no command. */
  lemma DataLabelsAreData(chunk: string)
    requires Base32.AllInAlphabet(chunk)
    ensures forall i :: 0 <= i < |Split(chunk, CHUNK)| ==>
      var l := Split(chunk, CHUNK)[i]; NoDot(l) && !IsMarker(l) && l != "reg" && l != "poll"
  {
    SplitInAlphabet(chunk, CHUNK);
    forall i | 0 <= i < |Split(chunk, CHUNK)|
      ensures var l := Split(chunk, CHUNK)[i]; NoDot(l) && !IsMarker(l) && l != "reg" && l != "poll"
    {
      var l := Split(chunk, CHUNK)[i];
      assert Base32.AllInAlphabet(l);
      if l != [] { assert Base32.InAlphabet(l[0]); }
    }
  }

  predicate GoodSession(session: string) { session != [] && NoDot(session) }

  /** A client query reaches handleSend with exactly its chunk, index, total and key. */
  lemma QueryIsRead(chunk: string, seqNo: nat, i: nat, total: nat, session: string, domain: string)
    requires Base32.AllInAlphabet(chunk) && GoodSession(session) && i < total <= MAX_TOTAL
    ensures var ls := QueryLabels(chunk, seqNo, i, total, session);
      && CommandLabels(QueryName(chunk, seqNo, i, total, session, domain), domain) == Some(ls)
      && ls[0] != "reg" && ls[0] != "poll"
      && ReadSend(ls) == Some(Chunk((session, seqNo), i, total, chunk, None))
  {
    QueryHasNoDots(chunk, seqNo, i, total, session);
    LabelsOfName(QueryLabels(chunk, seqNo, i, total, session), domain);
    LabelsAreRead(chunk, seqNo, i, total, session);
    DataLabelsAreData(chunk);
  }

  lemma QueryHasNoDots(chunk: string, seqNo: nat, i: nat, total: nat, session: string)
    requires Base32.AllInAlphabet(chunk) && NoDot(session)
    ensures forall j :: 0 <= j < |QueryLabels(chunk, seqNo, i, total, session)| ==>
      NoDot(QueryLabels(chunk, seqNo, i, total, session)[j])
  {
    DataLabelsAreData(chunk);
    DecFacts(seqNo);
    DecFacts(i);
    DecFacts(total);
    var ds, ls := Split(chunk, CHUNK), QueryLabels(chunk, seqNo, i, total, session);
    forall j | 0 <= j < |ls| ensures NoDot(ls[j]) {
      if j < |ds| { assert ls[j] == ds[j]; }
    }
  }

  lemma LabelsAreRead(chunk: string, seqNo: nat, i: nat, total: nat, session: string)
    requires Base32.AllInAlphabet(chunk) && i < total <= MAX_TOTAL
    ensures ReadSend(QueryLabels(chunk, seqNo, i, total, session))
         == Some(Chunk((session, seqNo), i, total, chunk, None))
  {
    QueryMarker(chunk, seqNo, i, total, session);
    SplitFacts(chunk, CHUNK);
    ReadAt(QueryLabels(chunk, seqNo, i, total, session), |Split(chunk, CHUNK)|, seqNo, i, total);
  }

  /** Whatever the labels: what is read as a chunk has an index below a total of at most 100, and
      data in front of the first marker. */
  lemma ReadInRange(ls: seq<string>)
    ensures ReadSend(ls).Some? ==> 0 <= ReadSend(ls).value.idx < ReadSend(ls).value.total <= 100
    ensures ReadSend(ls).Some? ==> exists k: nat :: ReadBehind(ls, k, ReadSend(ls).value)
  {
    FirstMarker(ls);
    if ReadSend(ls).Some? { assert ReadBehind(ls, MarkerIndex(ls), ReadSend(ls).value); }
  }

  /** Label k is the first marker, not the first label, with three more behind it. */
  predicate ReadBehind(ls: seq<string>, k: nat, c: Chunk<Key, char, ()>) {
    && 0 < k < |ls| - 3 && IsMarker(ls[k]) && (forall i :: 0 <= i < k ==> !IsMarker(ls[i]))
    && c.data == Concat(ls[..k]) && c.key.0 == ls[k + 3]
  }

  lemma {:induction false} FirstMarker(ls: seq<string>)
    ensures forall i :: 0 <= i < MarkerIndex(ls) ==> !IsMarker(ls[i])
  {
    if ls != [] && !IsMarker(ls[0]) {
      FirstMarker(ls[1..]);
      assert forall i :: 1 <= i < |ls| ==> ls[i] == ls[1..][i - 1];
    }
  }

  /** A frame needing more than 100 queries is never collected: each of them is ignored. */
  lemma LongFrameIgnored(chunk: string, seqNo: nat, i: nat, total: nat, session: string)
    requires Base32.AllInAlphabet(chunk) && total > MAX_TOTAL
    ensures ReadSend(QueryLabels(chunk, seqNo, i, total, session)) == None
  {
    QueryMarker(chunk, seqNo, i, total, session);
    ScanDec(total);
  }

  /** The marker is the first label after the data. */
  lemma QueryMarker(chunk: string, seqNo: nat, i: nat, total: nat, session: string)
    requires Base32.AllInAlphabet(chunk)
    ensures var k := |Split(chunk, CHUNK)|; var ls := QueryLabels(chunk, seqNo, i, total, session);
      && |ls| == k + 4 && MarkerIndex(ls) == k && ls[..k] == Split(chunk, CHUNK)
      && ls[k][1..] == Dec(seqNo) && ls[k + 1] == Dec(i) && ls[k + 2] == Dec(total) && ls[k + 3] == session
  {
    DataLabelsAreData(chunk);
    MarkerLayout(Split(chunk, CHUNK), Dec(seqNo), Dec(i), Dec(total), session);
  }

  lemma MarkerLayout(ds: seq<string>, n: string, x: string, y: string, z: string)
    requires n != [] && AllDigits(n) && forall i :: 0 <= i < |ds| ==> !IsMarker(ds[i])
    ensures var k := |ds|; var ls := ds + ["s" + n, x, y, z];
      && |ls| == k + 4 && MarkerIndex(ls) == k && ls[..k] == ds
      && ls[k][1..] == n && ls[k + 1] == x && ls[k + 2] == y && ls[k + 3] == z
  {
    assert ("s" + n)[1..] == n;
    MarkerAfterData(ds, "s" + n, [x, y, z]);
    assert ds + ["s" + n, x, y, z] == ds + (["s" + n] + [x, y, z]);
  }

  lemma ReadAt(ls: seq<string>, k: nat, seqNo: nat, i: nat, total: nat)
    requires 1 <= k && k + 3 < |ls| && MarkerIndex(ls) == k && i < total <= MAX_TOTAL
    requires ls[k][1..] == Dec(seqNo) && ls[k + 1] == Dec(i) && ls[k + 2] == Dec(total)
    ensures ReadSend(ls) == Some(Chunk((ls[k + 3], seqNo as int), i, total, Concat(ls[..k]), None))
  {
    ScanThree(ls[k][1..], seqNo, ls[k + 1], i, ls[k + 2], total);
  }

  lemma ScanThree(a: string, x: nat, b: string, y: nat, c: string, z: nat)
    requires a == Dec(x) && b == Dec(y) && c == Dec(z)
    ensures Scan(a) == x && Scan(b) == y && Scan(c) == z
  {
    ScanDec(x);
    ScanDec(y);
    ScanDec(z);
  }

  /** Section 2.3.4 of RFC 1035: every label of a data query is at most 63 octets. */
  lemma LabelsFit(chunk: string, seqNo: uint32, i: nat, total: nat, session: string)
    requires i < total <= MAX_TOTAL && |session| <= 63
    ensures forall j :: 0 <= j < |QueryLabels(chunk, seqNo, i, total, session)| ==>
      |QueryLabels(chunk, seqNo, i, total, session)[j]| <= 63
  {
    SplitFacts(chunk, CHUNK);
    DecFacts(seqNo);
    DecFacts(i);
    DecFacts(total);
    var ds := Split(chunk, CHUNK);
    var ls := QueryLabels(chunk, seqNo, i, total, session);
    forall j | 0 <= j < |ls| ensures |ls[j]| <= 63 {
      if j < |ds| { assert ls[j] == ds[j]; }
    }
  }

  /** A fully qualified name, final dot included, takes one octet more on the wire than it has
      characters; section 2.3.4 of RFC 1035 allows 255. */
  predicate NameFits(qname: string) { |qname| + 1 <= 255 }

  lemma {:induction false} JoinLength(a: seq<string>, b: seq<string>)
    requires a != [] && b != []
    ensures |Join(a + b)| == |Join(a)| + 1 + |Join(b)|
  {
    if |a| == 1 {
      assert (a + b)[1..] == b;
    } else {
      assert (a + b)[1..] == a[1..] + b;
      JoinLength(a[1..], b);
    }
  }

  lemma {:induction false} SplitLength(s: string, size: nat)
    requires size > 0
    ensures |Join(Split(s, size))| == |s| + |Split(s, size)| - 1
    decreases |s|
  {
    if |s| > size {
      SplitLength(s[size..], size);
      assert Split(s, size)[1..] == Split(s[size..], size);
    }
  }

  lemma ThreeLabels(chunk: string)
    requires |chunk| <= CHUNK * DATA_LABELS
    ensures |Split(chunk, CHUNK)| <= DATA_LABELS
    ensures |chunk| == CHUNK * DATA_LABELS ==> |Split(chunk, CHUNK)| == DATA_LABELS
  {
    if |chunk| > CHUNK {
      var rest := chunk[CHUNK..];
      assert Split(chunk, CHUNK) == [chunk[..CHUNK]] + Split(rest, CHUNK);
      if |rest| > CHUNK {
        assert Split(rest, CHUNK) == [rest[..CHUNK]] + Split(rest[CHUNK..], CHUNK);
      }
    }
  }

  lemma QueryLength(chunk: string, seqNo: nat, i: nat, total: nat, session: string, domain: string)
    ensures |QueryName(chunk, seqNo, i, total, session, domain)|
         == |chunk| + |Split(chunk, CHUNK)| + |Dec(seqNo)| + |Dec(i)| + |Dec(total)| + |session| + |domain| + 5
  {
    SplitLength(chunk, CHUNK);
    TailLength("s" + Dec(seqNo), Dec(i), Dec(total), session);
    JoinLength(Split(chunk, CHUNK), ["s" + Dec(seqNo), Dec(i), Dec(total), session]);
  }

  lemma TailLength(a: string, b: string, c: string, d: string)
    ensures |Join([a, b, c, d])| == |a| + |b| + |c| + |d| + 3
  {
    JoinLength([a], [b, c, d]);
    JoinLength([b], [c, d]);
    JoinLength([c], [d]);
    assert [a] + [b, c, d] == [a, b, c, d] && [b] + [c, d] == [b, c, d] && [c] + [d] == [c, d];
  }

  /** Every data query a client can send fits. */
  ghost predicate AllNamesFit(session: string, domain: string) {
    forall chunk: string, seqNo: uint32, i: nat, total: nat :: |chunk| <= CHUNK * DATA_LABELS && i < total <= MAX_TOTAL ==>
      NameFits(QueryName(chunk, seqNo, i, total, session, domain))
  }

  /** Every data query of a client (whose session has 8 characters) respects the 255 octets of
      a name exactly when the relay domain, final dot included, has at most 58 characters. */
  lemma NamesFitCondition(session: string, domain: string)
    requires |session| == 8
    ensures AllNamesFit(session, domain) <==> |domain| <= 58
  {
    forall chunk: string, seqNo: uint32, i: nat, total: nat |
        |chunk| <= CHUNK * DATA_LABELS && i < total <= MAX_TOTAL
      ensures |QueryName(chunk, seqNo, i, total, session, domain)| <= 196 + |domain|
    {
      QueryAtMost(chunk, seqNo, i, total, session, domain);
    }
    var chunk: string := seq(CHUNK * DATA_LABELS, _ => '0');
    LongestName(chunk, session, domain);
    if AllNamesFit(session, domain) {
      assert NameFits(QueryName(chunk, 0xFFFF_FFFF, 99, 100, session, domain));
    }
  }

  lemma QueryAtMost(chunk: string, seqNo: uint32, i: nat, total: nat, session: string, domain: string)
    requires |session| == 8 && |chunk| <= CHUNK * DATA_LABELS && i < total <= MAX_TOTAL
    ensures |QueryName(chunk, seqNo, i, total, session, domain)| <= 196 + |domain|
  {
    TenPowers();
    QueryLength(chunk, seqNo, i, total, session, domain);
    ThreeLabels(chunk);
    DecLength(seqNo, 10);
    DecLength(i, 2);
    DecLength(total, 3);
  }

  lemma LongestName(chunk: string, session: string, domain: string)
    requires |session| == 8 && |chunk| == CHUNK * DATA_LABELS
    ensures |QueryName(chunk, 0xFFFF_FFFF, 99, 100, session, domain)| >= 196 + |domain|
  {
    TenPowers();
    QueryLength(chunk, 0xFFFF_FFFF, 99, 100, session, domain);
    ThreeLabels(chunk);
    DecLength(0xFFFF_FFFF, 10);
    DecLength(99, 2);
    DecLength(100, 3);
  }

  /** The chunks of a frame are base32hex text and concatenate to its encoding. */
  lemma FrameChunksFacts(frame: seq<byte>)
    ensures Concat(FrameChunks(frame)) == Base32.Encode(frame)
    ensures forall i :: 0 <= i < |FrameChunks(frame)| ==> Base32.AllInAlphabet(FrameChunks(frame)[i])
  {
    SplitFacts(Base32.Encode(frame), CHUNK * DATA_LABELS);
    SplitInAlphabet(Base32.Encode(frame), CHUNK * DATA_LABELS);
  }
}
