/**
 Classification of a connection by the start of its first request line, and the stream that gives the
 sniffed bytes back (`src/api/http_server.rs`).
 */
module HttpSniff {
  import opened Prelude

  newtype byte = b: int | 0 <= b < 256

  type Bytes = seq<byte>

  const SNIFF_BYTES: nat := 64

  const SPACE: byte := 32

  /** A request line with no space in its first 16 bytes is not one the classifier needs. */
  const LONGEST_METHOD: nat := 16

  /** `/ingest/hls/` */
  const UPLOAD_PREFIX: Bytes := [47, 105, 110, 103, 101, 115, 116, 47, 104, 108, 115, 47]

  // ---------- targets_hls_upload ----------

  function FirstSpace(seen: Bytes): (n: nat)
    ensures n <= |seen|
    ensures n < |seen| ==> seen[n] == SPACE
    ensures forall i :: 0 <= i < n ==> seen[i] != SPACE
  {
    if seen == [] || seen[0] == SPACE then 0 else 1 + FirstSpace(seen[1..])
  }

  /** What the path so far says: `Some` once it cannot change. */
  function PathTargets(path: Bytes, prefix: Bytes): Option<bool> {
    var compared := Min(|path|, |prefix|);
    if path[..compared] != prefix[..compared] then Some(false)
    else if compared == |prefix| then Some(true)
    else None
  }

  function Targets(seen: Bytes, prefix: Bytes): Option<bool> {
    var space := FirstSpace(seen);
    if space == |seen| then if |seen| >= LONGEST_METHOD then Some(false) else None
    else PathTargets(seen[space + 1..], prefix)
  }

  function TargetsUpload(seen: Bytes): Option<bool> {
    Targets(seen, UPLOAD_PREFIX)
  }

  /** A path is settled for the prefix when it starts with it, and open while it is a proper part of it. */
  lemma PathSettles(path: Bytes, prefix: Bytes)
    ensures PathTargets(path, prefix) == Some(true) <==> prefix <= path
    ensures PathTargets(path, prefix).None? <==> path < prefix
  {
    var compared := Min(|path|, |prefix|);
    assert prefix[..|prefix|] == prefix && path[..|path|] == path;
  }

  lemma SpaceIsFound(before: Bytes, after: Bytes)
    requires SPACE !in before
    ensures FirstSpace(before + [SPACE] + after) == |before|
  {
    var seen := before + [SPACE] + after;
    assert seen[|before|] == SPACE;
    assert forall i :: 0 <= i < |before| ==> seen[i] == before[i] != SPACE;
  }

  lemma TargetsByPath(before: Bytes, path: Bytes, prefix: Bytes)
    requires SPACE !in before
    ensures Targets(before + [SPACE] + path, prefix) == PathTargets(path, prefix)
  {
    SpaceIsFound(before, path);
    assert (before + [SPACE] + path)[|before| + 1..] == path;
  }

  lemma OpenBeforeTheSpace(seen: Bytes, prefix: Bytes)
    requires SPACE !in seen && prefix != [] && SPACE !in prefix
    ensures Targets(seen + ([SPACE] + prefix), prefix) == Some(true)
    ensures Targets(seen + [SPACE, SPACE], prefix) == Some(false)
  {
    BothFollow(seen, [], prefix);
    assert seen + [SPACE] + ([] + prefix[0..]) == seen + ([SPACE] + prefix);
    assert seen + [SPACE] + ([] + [SPACE]) == seen + [SPACE, SPACE];
  }

  lemma OpenAfterTheSpace(before: Bytes, path: Bytes, prefix: Bytes)
    requires SPACE !in before && SPACE !in prefix && path < prefix
    ensures var seen := before + [SPACE] + path;
            Targets(seen + prefix[|path|..], prefix) == Some(true) && Targets(seen + [SPACE], prefix) == Some(false)
  {
    BothFollow(before, path, prefix);
    assert before + [SPACE] + path + prefix[|path|..] == before + [SPACE] + (path + prefix[|path|..]);
    assert before + [SPACE] + path + [SPACE] == before + [SPACE] + (path + [SPACE]);
  }

  /**
   Undecided only while both answers are possible: before the first space, or with a proper part of the prefix after it.
   */
  lemma OpenWhileBothArePossible(seen: Bytes, prefix: Bytes)
    requires Targets(seen, prefix).None? && prefix != [] && SPACE !in prefix
    ensures exists more :: Targets(seen + more, prefix) == Some(true)
    ensures exists more :: Targets(seen + more, prefix) == Some(false)
  {
    var space := FirstSpace(seen);
    if space == |seen| {
      OpenBeforeTheSpace(seen, prefix);
    } else {
      var before, path := seen[..space], seen[space + 1..];
      PathSettles(path, prefix);
      assert seen == before + [SPACE] + path;
      OpenAfterTheSpace(before, path, prefix);
    }
  }

  lemma BothFollow(before: Bytes, path: Bytes, prefix: Bytes)
    requires SPACE !in before && SPACE !in prefix && path < prefix
    ensures Targets(before + [SPACE] + (path + prefix[|path|..]), prefix) == Some(true)
    ensures Targets(before + [SPACE] + (path + [SPACE]), prefix) == Some(false)
  {
    assert path + prefix[|path|..] == prefix;
    TargetsByPath(before, prefix, prefix);
    PathSettles(prefix, prefix);
    var longer := path + [SPACE];
    TargetsByPath(before, longer, prefix);
    PathSettles(longer, prefix);
    assert longer[|path|] == SPACE && prefix[|path|] != SPACE;
  }

  /** Decided for the prefix exactly when it follows the first space. */
  lemma TargetsExactly(seen: Bytes, prefix: Bytes)
    ensures Targets(seen, prefix) == Some(true) <==> FirstSpace(seen) < |seen| && prefix <= seen[FirstSpace(seen) + 1..]
  {
    if FirstSpace(seen) < |seen| {
      PathSettles(seen[FirstSpace(seen) + 1..], prefix);
    }
  }

  /** The bytes of an ASCII text. */
  function Ascii(text: string): Bytes
    requires forall i :: 0 <= i < |text| ==> text[i] as int < 256
  {
    seq(|text|, (i: int) requires 0 <= i < |text| => text[i] as int as byte)
  }

  /** Whatever the method and the rest: an upload's request line is recognised once its path is there. */
  lemma UploadIsRecognised(verb: string, rest: Bytes)
    requires (forall i :: 0 <= i < |verb| ==> verb[i] as int < 256 && verb[i] != ' ')
    ensures TargetsUpload(Ascii(verb) + Ascii(" ") + (Ascii("/ingest/hls/") + rest)) == Some(true)
  {
    var path := Ascii("/ingest/hls/");
    assert path == UPLOAD_PREFIX && Ascii(" ") == [SPACE];
    assert SPACE !in Ascii(verb);
    TargetsByPath(Ascii(verb), path + rest, UPLOAD_PREFIX);
    PathSettles(path + rest, UPLOAD_PREFIX);
  }

  // ---------- The socket and the stream put before it ----------

  /** The receiving half of a connection: the bytes still to come. */
  class Socket {
    var rest: Bytes

    constructor (rest: Bytes)
      ensures this.rest == rest
    {
      this.rest := rest;
    }

    /** A read into `room` bytes that `size` bytes have arrived for; none at the end, on an error or a timeout. */
    method Read(room: nat, size: nat) returns (got: Bytes)
      modifies this
      ensures |got| == Min(Min(room, size), |old(rest)|) && got + rest == old(rest)
    {
      var n := Min(Min(room, size), |rest|);
      got := rest[..n];
      rest := rest[n..];
    }
  }

  class Prefixed {
    const prefix: array<byte>
    const stream: Socket
    var start: nat
    var end: nat

    ghost predicate Valid()
      reads this
    {
      start <= end <= prefix.Length
    }

    /** Everything a reader has yet to see. */
    ghost function Rest(): Bytes
      requires Valid()
      reads this, prefix, stream
    {
      prefix[start..end] + stream.rest
    }

    constructor (prefix: array<byte>, end: nat, stream: Socket)
      requires end <= prefix.Length
      ensures Valid() && this.prefix == prefix && this.stream == stream
      ensures this.end == end && Rest() == prefix[..end] + stream.rest
    {
      this.prefix, this.stream, this.start, this.end := prefix, stream, 0, end;
    }

    /** Reads yield the sniffed bytes, then the socket's. */
    method PollRead(room: nat, size: nat) returns (got: Bytes)
      requires Valid()
      modifies this, stream
      ensures Valid() && got + Rest() == old(Rest()) && |got| <= room
      ensures got == [] ==> room == 0 || size == 0 || old(Rest()) == []
    {
      if start == end {
        got := stream.Read(room, size);
        assert prefix[start..end] == [];
        return;
      }
      var take := Min(end - start, room);
      got := prefix[start..start + take];
      assert prefix[start..end] == got + prefix[start + take..end];
      start := start + take;
    }
  }

  datatype ReadSize = ReadSize(room: nat, size: nat)

  lemma ConcatAssociates(a: Bytes, b: Bytes, c: Bytes)
    ensures (a + b) + c == a + (b + c)
  {
  }

  /** However a reader sizes its reads, it receives the connection's bytes in order, none lost and none twice. */
  method ReadThrough(stream: Prefixed, sizes: seq<ReadSize>) returns (got: Bytes)
    requires stream.Valid()
    modifies stream, stream.stream
    ensures stream.Valid() && got + stream.Rest() == old(stream.Rest())
  {
    got := [];
    for k := 0 to |sizes|
      invariant stream.Valid() && got + stream.Rest() == old(stream.Rest())
    {
      var more := stream.PollRead(sizes[k].room, sizes[k].size);
      ConcatAssociates(got, more, stream.Rest());
      got := got + more;
    }
  }

  // ---------- classify ----------

  type Decision = Bytes -> Option<bool>

  /** How many bytes the next read takes, when `size` have arrived for it. */
  function Taken(incoming: Bytes, filled: nat, size: nat): nat
    requires filled <= |incoming| && filled <= SNIFF_BYTES
  {
    Min(Min(SNIFF_BYTES - filled, size), |incoming| - filled)
  }

  /** The bytes taken and the decision, when the reads deliver `arrivals` bytes one after the other. */
  function Sniff(decide: Decision, incoming: Bytes, filled: nat, arrivals: seq<nat>): (nat, bool)
    requires filled <= |incoming| && filled <= SNIFF_BYTES
    decreases |arrivals|
  {
    if arrivals == [] || Taken(incoming, filled, arrivals[0]) == 0 then (filled, false)
    else
      var n := filled + Taken(incoming, filled, arrivals[0]);
      var decided := decide(incoming[..n]);
      if decided.Some? then (n, decided.value) else Sniff(decide, incoming, n, arrivals[1..])
  }

  /** Copies what a read delivered into the free part of the buffer. */
  method Fill(prefix: array<byte>, filled: nat, got: Bytes)
    requires filled + |got| <= prefix.Length
    modifies prefix
    ensures prefix[..filled + |got|] == old(prefix[..filled]) + got
  {
    for i := 0 to |got|
      invariant prefix[..filled + i] == old(prefix[..filled]) + got[..i]
    {
      prefix[filled + i] := got[i];
      assert prefix[..filled + i + 1] == prefix[..filled + i] + [got[i]];
      assert got[..i + 1] == got[..i] + [got[i]];
    }
    assert got[..|got|] == got;
  }

  ghost predicate HasRead(seen: Bytes, rest: Bytes, incoming: Bytes) {
    |seen| <= |incoming| && seen == incoming[..|seen|] && rest == incoming[|seen|..]
  }

  lemma TakenIsNext(seen: Bytes, got: Bytes, rest: Bytes, incoming: Bytes)
    requires HasRead(seen, got + rest, incoming)
    ensures HasRead(seen + got, rest, incoming)
  {
    assert incoming == seen + (got + rest);
    assert incoming == (seen + got) + rest;
  }

  lemma SniffStep(decide: Decision, incoming: Bytes, filled: nat, arrivals: seq<nat>, k: nat)
    requires filled <= |incoming| && filled <= SNIFF_BYTES && k < |arrivals|
    ensures var n := filled + Taken(incoming, filled, arrivals[k]);
            Sniff(decide, incoming, filled, arrivals[k..]) ==
            if n == filled then (filled, false)
            else if decide(incoming[..n]).Some? then (n, decide(incoming[..n]).value)
            else Sniff(decide, incoming, n, arrivals[k + 1..])
  {
    assert arrivals[k..][1..] == arrivals[k + 1..];
  }

  /** One read into the free part of the buffer. */
  method ReadMore(socket: Socket, prefix: array<byte>, filled: nat, size: nat, ghost incoming: Bytes)
    returns (more: nat)
    requires prefix.Length == SNIFF_BYTES && filled <= SNIFF_BYTES && HasRead(prefix[..filled], socket.rest, incoming)
    modifies socket, prefix
    ensures filled <= |incoming| && more == filled + Taken(incoming, filled, size) <= SNIFF_BYTES
    ensures HasRead(prefix[..more], socket.rest, incoming)
  {
    var got := socket.Read(SNIFF_BYTES - filled, size);
    TakenIsNext(prefix[..filled], got, socket.rest, incoming);
    Fill(prefix, filled, got);
    more := filled + |got|;
  }

  /**
   Reads until `decide` settles it; `arrivals` is what each read delivers, and after the last one the wait times out.
   */
  method SniffSocket(decide: Decision, socket: Socket, prefix: array<byte>, arrivals: seq<nat>)
    returns (filled: nat, decision: bool)
    requires prefix.Length == SNIFF_BYTES
    modifies socket, prefix
    ensures (filled, decision) == Sniff(decide, old(socket.rest), 0, arrivals)
    ensures filled <= SNIFF_BYTES && HasRead(prefix[..filled], socket.rest, old(socket.rest))
  {
    ghost var incoming, goal := socket.rest, Sniff(decide, socket.rest, 0, arrivals);
    filled, decision := 0, false;
    var k := 0;
    while filled < SNIFF_BYTES && k < |arrivals|
      invariant filled <= SNIFF_BYTES && filled <= |incoming| && k <= |arrivals|
      invariant HasRead(prefix[..filled], socket.rest, incoming)
      invariant Sniff(decide, incoming, filled, arrivals[k..]) == goal
      decreases |arrivals| - k
    {
      SniffStep(decide, incoming, filled, arrivals, k);
      var more := ReadMore(socket, prefix, filled, arrivals[k], incoming);
      if more == filled {
        return;
      }
      filled, k := more, k + 1;
      var decided := decide(prefix[..filled]);
      if decided.Some? {
        decision := decided.value;
        return;
      }
    }
  }

  /** The returned stream yields everything the connection sends, sniffed bytes included. */
  method Classify(socket: Socket, arrivals: seq<nat>) returns (upload: bool, stream: Prefixed)
    modifies socket
    ensures fresh(stream) && fresh(stream.prefix) && stream.stream == socket && stream.Valid()
    ensures stream.Rest() == old(socket.rest)
    ensures (stream.end, upload) == Sniff(TargetsUpload, old(socket.rest), 0, arrivals)
  {
    var prefix := new byte[SNIFF_BYTES];
    var filled;
    filled, upload := SniffSocket(TargetsUpload, socket, prefix, arrivals);
    stream := new Prefixed(prefix, filled, socket);
  }

  // ---------- The decision does not depend on how the bytes arrive ----------

  function Window(incoming: Bytes): Bytes {
    incoming[..Min(64, |incoming|)]
  }

  /** No read times out before the bytes are there. */
  ghost predicate Arrives(arrivals: seq<nat>, needed: nat) {
    |arrivals| >= needed && forall i :: 0 <= i < |arrivals| ==> arrivals[i] > 0
  }

  /** The method ends within 16 bytes, or the whole window is no upload anyway. */
  predicate ShortMethodOrNoUpload(incoming: Bytes) {
    FirstSpace(Window(incoming)) < 16 || TargetsUpload(Window(incoming)) != Some(true)
  }

  lemma FirstSpaceOfPrefix(seen: Bytes, n: nat)
    requires n <= |seen|
    ensures FirstSpace(seen[..n]) == Min(n, FirstSpace(seen))
  {
    var a, b := FirstSpace(seen[..n]), FirstSpace(seen);
    assert forall i :: 0 <= i < n ==> seen[..n][i] == seen[i];
    assert b < n ==> seen[..n][b] == SPACE;
    assert a < n ==> seen[a] == SPACE;
  }

  /** Once a space is seen, a decision stands whatever follows. */
  lemma DecisionStands(seen: Bytes, n: nat, prefix: Bytes)
    requires n <= |seen| && FirstSpace(seen[..n]) < n && Targets(seen[..n], prefix).Some?
    ensures Targets(seen, prefix) == Targets(seen[..n], prefix)
  {
    FirstSpaceOfPrefix(seen, n);
    var space := FirstSpace(seen);
    var path, short := seen[space + 1..], seen[..n][space + 1..];
    assert short == path[..|short|];
    PathSettles(path, prefix);
    PathSettles(short, prefix);
  }

  lemma DecidedIsWhole(incoming: Bytes, n: nat)
    requires n <= |Window(incoming)| && ShortMethodOrNoUpload(incoming) && TargetsUpload(incoming[..n]).Some?
    ensures TargetsUpload(incoming[..n]).value == (TargetsUpload(Window(incoming)) == Some(true))
  {
    var window := Window(incoming);
    assert window[..n] == incoming[..n];
    FirstSpaceOfPrefix(window, n);
    if FirstSpace(window[..n]) < n {
      DecisionStands(window, n, UPLOAD_PREFIX);
    }
  }

  /** Every decision on a part of the window is `whole`, and without one at its end `whole` is the default. */
  ghost predicate DecisionsAre(decide: Decision, incoming: Bytes, whole: bool) {
    && (forall n :: 0 <= n <= |Window(incoming)| && decide(incoming[..n]).Some? ==>
        decide(incoming[..n]).value == whole)
    && (decide(Window(incoming)).None? ==> !whole)
  }

  lemma {:induction false} SniffIsWhole(decide: Decision, incoming: Bytes, filled: nat, arrivals: seq<nat>, whole: bool)
    requires filled <= |Window(incoming)| && decide(incoming[..filled]).None?
    requires DecisionsAre(decide, incoming, whole) && Arrives(arrivals, SNIFF_BYTES - filled)
    ensures Sniff(decide, incoming, filled, arrivals).1 == whole
    decreases |arrivals|
  {
    if filled < |Window(incoming)| {
      var n := filled + Taken(incoming, filled, arrivals[0]);
      if decide(incoming[..n]).None? {
        SniffIsWhole(decide, incoming, n, arrivals[1..], whole);
      }
    } else {
      assert incoming[..filled] == Window(incoming);
    }
  }

  /**
   However the bytes arrive and whenever the wait times out: the answer is an upload exactly when the bytes taken decide
   it, and no part taken before them decided anything.
   */
  lemma {:induction false} SniffIsWhatWasTaken(decide: Decision, incoming: Bytes, filled: nat, arrivals: seq<nat>)
    requires filled <= |incoming| && filled <= SNIFF_BYTES && decide(incoming[..filled]) != Some(true)
    ensures var (taken, upload) := Sniff(decide, incoming, filled, arrivals);
            && filled <= taken <= |Window(incoming)|
            && (upload <==> decide(incoming[..taken]) == Some(true))
    decreases |arrivals|
  {
    if arrivals != [] && Taken(incoming, filled, arrivals[0]) > 0 {
      var n := filled + Taken(incoming, filled, arrivals[0]);
      if decide(incoming[..n]).None? {
        SniffIsWhatWasTaken(decide, incoming, n, arrivals[1..]);
      }
    }
  }

  /** A connection that sends nothing, or nothing more in time, is no upload unless what it sent says so. */
  lemma UndecidedIsNoUpload(incoming: Bytes, arrivals: seq<nat>)
    requires forall n :: 0 <= n <= |Window(incoming)| ==> TargetsUpload(incoming[..n]) != Some(true)
    ensures !Sniff(TargetsUpload, incoming, 0, arrivals).1
  {
    SniffIsWhatWasTaken(TargetsUpload, incoming, 0, arrivals);
  }

  /**
   Every arrival of the bytes gives the decision of the whole window, exactly when the method is short or it is no
   upload.
   */
  lemma FragmentationDoesNotMatterIff(incoming: Bytes)
    ensures (forall arrivals :: Arrives(arrivals, SNIFF_BYTES) ==>
                               Sniff(TargetsUpload, incoming, 0, arrivals).1 ==
                                   (TargetsUpload(Window(incoming)) == Some(true)))
       <==> ShortMethodOrNoUpload(incoming)
  {
    assert incoming[..0] == [];
    if ShortMethodOrNoUpload(incoming) {
      var whole := TargetsUpload(Window(incoming)) == Some(true);
      forall n | 0 <= n <= |Window(incoming)| && TargetsUpload(incoming[..n]).Some?
        ensures TargetsUpload(incoming[..n]).value == whole {
        DecidedIsWhole(incoming, n);
      }
      forall arrivals | Arrives(arrivals, SNIFF_BYTES) ensures Sniff(TargetsUpload, incoming, 0, arrivals).1 == whole {
        SniffIsWhole(TargetsUpload, incoming, 0, arrivals, whole);
      }
    } else {
      var arrivals := seq(SNIFF_BYTES, i => LONGEST_METHOD);
      assert Arrives(arrivals, SNIFF_BYTES);
      LongMethodIsMisread(incoming, arrivals);
    }
  }

  /** An upload whose method is 16 bytes or longer is taken for none when its first read stops at 16 bytes. */
  lemma LongMethodIsMisread(incoming: Bytes, arrivals: seq<nat>)
    requires !ShortMethodOrNoUpload(incoming) && arrivals != [] && arrivals[0] == LONGEST_METHOD
    ensures !Sniff(TargetsUpload, incoming, 0, arrivals).1 && TargetsUpload(Window(incoming)) == Some(true)
  {
    var window := Window(incoming);
    FirstSpaceOfPrefix(window, LONGEST_METHOD);
    assert incoming[..LONGEST_METHOD] == window[..LONGEST_METHOD];
  }

  /** With a method within 16 bytes, 28 bytes settle it, well before the buffer fills. */
  lemma DecidedWithin28Bytes(incoming: Bytes, n: nat)
    requires 28 <= n <= |incoming| && FirstSpace(incoming) < 16
    ensures TargetsUpload(incoming[..n]).Some?
  {
    FirstSpaceOfPrefix(incoming, n);
    PathSettles(incoming[..n][FirstSpace(incoming) + 1..], UPLOAD_PREFIX);
  }
}
