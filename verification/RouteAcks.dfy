/** Sequence numbers of requests, and the matching of answers to them. */
module RouteAcks {
  import opened Bits
  import opened Wrappers
  import opened RouteMessage

  // ----- sequence numbers

  /** 32-bit increment that skips zero. */
  function NextSeq(s: int32): (r: int32)
    ensures r != 0
  {
    var t: int32 := if s == 0x7fff_ffff then -0x8000_0000 else s + 1;
    if t == 0 then 1 else t
  }

  function SeqAfter(s: int32, k: nat): (r: int32)
    ensures k > 0 ==> r != 0
  {
    if k == 0 then s else NextSeq(SeqAfter(s, k - 1))
  }

  /** The place of a nonzero number on the cycle 1, 2, .., 2^31-1, -2^31, .., -1. */
  function Place(s: int32): (p: nat)
    ensures p < 0xffff_ffff
  {
    if s > 0 then s - 1 else if s < 0 then s + 0xffff_ffff else 0xffff_fffe
  }

  lemma PlaceStep(s: int32)
    ensures Place(NextSeq(s)) == (Place(s) + 1) % 0xffff_ffff
  {
  }

  lemma {:induction false} PlaceAfter(s: int32, k: nat)
    ensures Place(SeqAfter(s, k)) == (Place(s) + k) % 0xffff_ffff
  {
    if k > 0 {
      PlaceAfter(s, k - 1);
      PlaceStep(SeqAfter(s, k - 1));
      ModStep(Place(s) + (k - 1));
    }
  }

  lemma ModStep(a: nat)
    ensures (a % 0xffff_ffff + 1) % 0xffff_ffff == (a + 1) % 0xffff_ffff
  {
  }

  /** Any batch of at most 2^32-1 requests gets distinct nonzero numbers, wherever it starts and
      across the wrap-around. */
  lemma SequenceDistinct(s: int32, i: nat, j: nat)
    requires 1 <= i < j <= i + 0xffff_fffe
    ensures SeqAfter(s, i) != SeqAfter(s, j) && SeqAfter(s, i) != 0
  {
    PlaceAfter(s, i);
    PlaceAfter(s, j);
    ModDistinct(Place(s) + i, Place(s) + j);
  }

  lemma ModDistinct(a: nat, b: nat)
    requires a < b < a + 0xffff_ffff
    ensures a % 0xffff_ffff != b % 0xffff_ffff
  {
  }

  // ----- answers

  /** What one read of the socket gives. */
  datatype ReadResult = Bytes(data: seq<byte>) | Interrupted | Broken

  /** All records, in the order in which the reads deliver them. */
  function AllRecords(input: seq<ReadResult>): seq<Header>
  {
    if input == [] then []
    else AllRecords(input[..|input| - 1]) +
         match input[|input| - 1] case Bytes(d) => Records(d) case _ => []
  }

  type Results = map<int32, int32>

  /** Each wanted number answered so far, with the errno of its first record. */
  function Answers(wanted: set<int32>, records: seq<Header>): (r: Results)
    ensures r.Keys <= wanted
  {
    if records == [] then map[]
    else
      var before, h := Answers(wanted, records[..|records| - 1]), records[|records| - 1];
      if h.seqno in wanted && h.seqno !in before then before[h.seqno := h.errno] else before
  }

  /** The answer to s is the first record that carries s. */
  lemma {:induction false} FirstAnswer(wanted: set<int32>, records: seq<Header>, s: int32)
    requires s in wanted
    ensures s in Answers(wanted, records) <==>
            exists i :: 0 <= i < |records| && records[i].seqno == s
    ensures s in Answers(wanted, records) ==>
            exists i :: 0 <= i < |records| && records[i].seqno == s
              && records[i].errno == Answers(wanted, records)[s]
              && forall j :: 0 <= j < i ==> records[j].seqno != s
  {
    if records != [] {
      var n := |records| - 1;
      FirstAnswer(wanted, records[..n], s);
      if s in Answers(wanted, records[..n]) {
        var i :| 0 <= i < n && records[..n][i].seqno == s
          && records[..n][i].errno == Answers(wanted, records[..n])[s]
          && forall j :: 0 <= j < i ==> records[..n][j].seqno != s;
        assert records[i].seqno == s;
        forall j | 0 <= j < i ensures records[j].seqno != s {
          assert records[..n][j].seqno != s;
        }
      } else {
        forall j | 0 <= j < n ensures records[j].seqno != s {
          assert records[..n][j] == records[j];
        }
      }
    }
  }

  /** Does the i-th read hold a j-th record? */
  predicate HeaderAt(input: seq<ReadResult>, i: int, j: int) {
    0 <= i < |input| && input[i].Bytes? && 0 <= j < |Records(input[i].data)|
  }

  function HeaderOf(input: seq<ReadResult>, i: int, j: int): Header
    requires HeaderAt(input, i, j)
  {
    Records(input[i].data)[j]
  }

  /** The j-th record of the i-th read carries s, and none read earlier does. */
  ghost predicate First(input: seq<ReadResult>, s: int32, i: int, j: int) {
    && HeaderAt(input, i, j) && HeaderOf(input, i, j).seqno == s
    && forall k, l :: HeaderAt(input, k, l) && (k < i || (k == i && l < j)) ==> HeaderOf(input, k, l).seqno != s
  }

  lemma {:induction false} AnswersStay(wanted: set<int32>, a: seq<Header>, b: seq<Header>)
    ensures forall s :: s in Answers(wanted, a) ==>
              s in Answers(wanted, a + b) && Answers(wanted, a + b)[s] == Answers(wanted, a)[s]
    decreases |b|
  {
    if b == [] {
      assert a + b == a;
    } else {
      var n := |b| - 1;
      AnswersStay(wanted, a, b[..n]);
      assert (a + b)[..|a| + n] == a + b[..n];
    }
  }

  /** The answers, read by read: a number has one exactly when some read holds a record that carries it,
      and then that of the first such record of the first such read. */
  lemma {:induction false} AnswersByRead(wanted: set<int32>, input: seq<ReadResult>, s: int32)
    requires s in wanted
    ensures s in Answers(wanted, AllRecords(input)) <==>
            exists i, j :: HeaderAt(input, i, j) && HeaderOf(input, i, j).seqno == s
    ensures s in Answers(wanted, AllRecords(input)) ==>
            exists i, j :: First(input, s, i, j) && HeaderOf(input, i, j).errno == Answers(wanted, AllRecords(input))[s]
    decreases |input|
  {
    hide Records, Answers;
    if input == [] {
      EmptyAnswers(wanted);
    } else {
      var n := |input| - 1;
      var a, r := AllRecords(input[..n]), if input[n].Bytes? then Records(input[n].data) else [];
      assert AllRecords(input) == a + r;
      HeadersOfPrefix(input, n);
      AnswersByRead(wanted, input[..n], s);
      AnswersStay(wanted, a, r);
      FirstAnswer(wanted, a, s);
      FirstAnswer(wanted, a + r, s);
      if s in Answers(wanted, a) {
        var i, j :| First(input[..n], s, i, j) && HeaderOf(input[..n], i, j).errno == Answers(wanted, a)[s];
        assert First(input, s, i, j);
      } else if s in Answers(wanted, a + r) {
        var k :| 0 <= k < |a + r| && (a + r)[k].seqno == s && (a + r)[k].errno == Answers(wanted, a + r)[s]
          && forall l :: 0 <= l < k ==> (a + r)[l].seqno != s;
        LastRead(wanted, input, s, a, r, k);
      } else {
        forall i, j | HeaderAt(input, i, j) ensures HeaderOf(input, i, j).seqno != s {
          if i == n { assert (a + r)[|a| + j] == r[j]; }
        }
      }
    }
  }

  /** The first answer is in the last read. */
  lemma LastRead(wanted: set<int32>, input: seq<ReadResult>, s: int32, a: seq<Header>, r: seq<Header>, k: nat)
    requires input != [] && r == (var x := input[|input| - 1]; if x.Bytes? then Records(x.data) else [])
    requires k < |a + r| && (a + r)[k].seqno == s && forall l :: 0 <= l < k ==> (a + r)[l].seqno != s
    requires forall l :: 0 <= l < |a| ==> a[l].seqno != s
    requires forall i, j :: HeaderAt(input, i, j) && i < |input| - 1 ==> HeaderOf(input, i, j).seqno != s
    ensures k >= |a| && First(input, s, |input| - 1, k - |a|)
    ensures HeaderOf(input, |input| - 1, k - |a|) == (a + r)[k]
  {
    hide Records;
    forall l | 0 <= l < k - |a| ensures r[l].seqno != s {
      assert (a + r)[|a| + l] == r[l];
    }
  }

  lemma HeadersOfPrefix(input: seq<ReadResult>, n: nat)
    requires n <= |input|
    ensures forall i, j :: HeaderAt(input[..n], i, j) <==> i < n && HeaderAt(input, i, j)
    ensures forall i, j :: HeaderAt(input[..n], i, j) ==> HeaderOf(input[..n], i, j) == HeaderOf(input, i, j)
  {
    hide Records;
  }

  lemma AnswersStep(wanted: set<int32>, records: seq<Header>, h: Header)
    ensures Answers(wanted, records + [h]) ==
            var before := Answers(wanted, records);
            if h.seqno in wanted && h.seqno !in before then before[h.seqno := h.errno] else before
  {
    assert (records + [h])[..|records|] == records;
  }

  /** Walks the records of one read. */
  method WalkBuffer(buffer: seq<byte>, wanted: set<int32>, ghost before: seq<Header>, results: Results)
    returns (r: Results)
    requires results == Answers(wanted, before)
    ensures r == Answers(wanted, before + Records(buffer))
  {
    hide DecodeHeader, Answers;
    r := results;
    var offset, n := 0, |buffer|;
    ghost var seen := before;
    assert buffer[0..] == buffer;
    while offset + HEADER_SIZE <= n
      invariant 0 <= offset <= n
      invariant r == Answers(wanted, seen)
      invariant seen + Records(buffer[offset..]) == before + Records(buffer)
      decreases n - offset
    {
      var rest := buffer[offset..];
      var hdr := DecodeHeader(rest);
      if hdr.None? || hdr.value.msglen < HEADER_SIZE {
        break;
      }
      var h := hdr.value;
      if offset + h.msglen > n {
        break;
      }
      AnswersStep(wanted, seen, h);
      if h.seqno in wanted {
        if h.seqno !in r {
          r := r[h.seqno := h.errno];
        }
      }
      assert rest[h.msglen..] == buffer[offset + h.msglen..];
      seen := seen + [h];
      offset := offset + h.msglen;
    }
    NoMoreRecords(buffer[offset..]);
    assert seen + [] == seen;
  }

  lemma NoMoreRecords(rest: seq<byte>)
    ensures (|rest| < HEADER_SIZE || DecodeHeader(rest).None? || DecodeHeader(rest).value.msglen < HEADER_SIZE
             || DecodeHeader(rest).value.msglen > |rest|) ==> Records(rest) == []
  {
  }

  /** Reads until every wanted number is answered or the socket fails; running out of reads is
      the receive timeout. A number has the errno of the first record that carries it, by read and then by
      place in the read, and every number carried by a record before a failure of the socket has one. */
  method CollectAcks(wanted: set<int32>, input: seq<ReadResult>) returns (results: Results, ok: bool)
    ensures forall s :: s in results ==>
              s in wanted && exists i, j :: First(input, s, i, j) && HeaderOf(input, i, j).errno == results[s]
    ensures forall i, j :: HeaderAt(input, i, j) && HeaderOf(input, i, j).seqno in wanted && Broken !in input[..i] ==>
              HeaderOf(input, i, j).seqno in results
    ensures ok <==> results.Keys == wanted
  {
    hide Records, Answers;
    results := map[];
    var i := 0;
    EmptyAnswers(wanted);
    while |results| < |wanted|
      invariant 0 <= i <= |input|
      invariant results.Keys <= wanted
      invariant results == Answers(wanted, AllRecords(input[..i]))
      decreases |input| - i
    {
      if i == |input| {
        Collected(wanted, input, i, results);
        return results, false;
      }
      var read := input[i];
      ghost var before := AllRecords(input[..i]);
      assert input[..i + 1][..i] == input[..i];
      i := i + 1;
      match read {
        case Interrupted =>
          assert AllRecords(input[..i]) == before + [] == before;
        case Broken =>
          assert AllRecords(input[..i]) == before + [] == before;
          assert input[i - 1] == Broken;
          Collected(wanted, input, i, results);
          return results, false;
        case Bytes(data) =>
          if |data| < HEADER_SIZE {
            NoMoreRecords(data);
            assert AllRecords(input[..i]) == before + [] == before;
          } else {
            results := WalkBuffer(data, wanted, before, results);
          }
      }
    }
    SubsetFull(results.Keys, wanted);
    Collected(wanted, input, i, results);
    ok := true;
  }

  /** What the first used reads tell about all of them. */
  lemma Collected(wanted: set<int32>, input: seq<ReadResult>, used: nat, results: Results)
    requires used <= |input| && results == Answers(wanted, AllRecords(input[..used]))
    requires results.Keys == wanted || used == |input| || (used > 0 && input[used - 1] == Broken)
    ensures forall s :: s in results ==>
              s in wanted && exists i, j :: First(input, s, i, j) && HeaderOf(input, i, j).errno == results[s]
    ensures forall i, j :: HeaderAt(input, i, j) && HeaderOf(input, i, j).seqno in wanted && Broken !in input[..i] ==>
              HeaderOf(input, i, j).seqno in results
  {
    hide Records, Answers;
    var head := input[..used];
    HeadersOfPrefix(input, used);
    forall s | s in results
      ensures s in wanted && exists i, j :: First(input, s, i, j) && HeaderOf(input, i, j).errno == results[s]
    {
      AnswersByRead(wanted, head, s);
      var i, j :| First(head, s, i, j) && HeaderOf(head, i, j).errno == results[s];
      assert First(input, s, i, j);
    }
    forall i, j | HeaderAt(input, i, j) && HeaderOf(input, i, j).seqno in wanted && Broken !in input[..i]
      ensures HeaderOf(input, i, j).seqno in results
    {
      if results.Keys == wanted {
        assert HeaderOf(input, i, j).seqno in results.Keys;
      } else {
        assert HeaderAt(head, i, j);
        AnswersByRead(wanted, head, HeaderOf(input, i, j).seqno);
      }
    }
  }

  lemma EmptyAnswers(wanted: set<int32>)
    ensures AllRecords([]) == [] && Answers(wanted, AllRecords([])) == map[]
  {
  }

  lemma SubsetFull<T>(a: set<T>, b: set<T>)
    requires a <= b && |a| >= |b|
    ensures a == b
  {
    assert |b - a| == |b| - |a|;
  }
}
