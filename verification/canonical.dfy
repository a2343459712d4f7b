/** The messages that request signatures are computed over: fields joined by newlines. */
module Canonical {
  import opened Wrappers
  import Utf8

  const NEWLINE := '\n'
  /** A SHA-256 digest in hexadecimal. */
  const DIGEST_LENGTH := 64

  datatype Request =
    | ProspectV1(timestamp: string, nonce: string, verb: string, path: string, digest: string)
    | ProspectV2(timestamp: string, nonce: string, idempotencyKey: string, clientKey: string, verb: string, path: string, digest: string)
    | Booking(timestamp: string, nonce: string, submission: string, path: string, digest: string)
    | EventInterest(timestamp: string, nonce: string, verb: string, path: string, digest: string)

  predicate Line(s: string) {
    NEWLINE !in s
  }

  /** Upper case, for the ASCII letters that HTTP methods consist of. */
  function Upper(s: string): (r: string)
    ensures |r| == |s|
    ensures Line(s) ==> Line(r)
  {
    seq(|s|, i requires 0 <= i < |s| => if 'a' <= s[i] <= 'z' then ((s[i] as int) - 32) as char else s[i])
  }

  /** What the checks before the signature leave of the headers: no field but the path can hold a newline. */
  predicate Checked(r: Request) {
    && Line(r.timestamp) && Line(r.nonce)
    && (!r.Booking? ==> Line(r.verb))
    && (r.ProspectV2? ==> Line(r.idempotencyKey) && Line(r.clientKey))
    && (r.Booking? ==> Line(r.submission))
    && |r.digest| == 64
  }

  function Join(parts: seq<string>): string
    requires parts != []
  {
    if |parts| == 1 then parts[0] else parts[0] + [NEWLINE] + Join(parts[1..])
  }

  /** The fields before the path. */
  function Front(r: Request): (f: seq<string>)
    ensures f != []
  {
    match r
    case ProspectV1(timestamp, nonce, verb, _, _) => ["v1", timestamp, nonce, Upper(verb)]
    case ProspectV2(timestamp, nonce, key, client, verb, _, _) => ["v2", timestamp, nonce, key, client, Upper(verb)]
    case Booking(timestamp, nonce, submission, _, _) => ["booking-v1", timestamp, nonce, submission, "POST"]
    case EventInterest(timestamp, nonce, verb, _, _) => ["event-interest-v1", timestamp, nonce, verb]
  }

  function Message(r: Request): string {
    Join(Front(r) + [r.path, r.digest])
  }

  function Scalars(s: string): (t: Utf8.Text)
    ensures |t| == |s| && forall i {:trigger t[i]} :: 0 <= i < |s| ==> t[i] == s[i] as int
  {
    seq(|s|, i requires 0 <= i < |s| => s[i] as int)
  }

  /** The bytes that are signed. */
  function Signed(r: Request): seq<Utf8.Byte> {
    Utf8.Encode(Scalars(Message(r)))
  }

  const SMALL_LETTERS := "abcdefghijklmnopqrstuvwxyz"
  const CAPITAL_LETTERS := "ABCDEFGHIJKLMNOPQRSTUVWXYZ"

  /** Small letters become the capital ones, and nothing else changes. */
  lemma UpperIs(s: string, i: nat)
    requires i < |s|
    ensures forall k :: 0 <= k < 26 && s[i] == SMALL_LETTERS[k] ==> Upper(s)[i] == CAPITAL_LETTERS[k]
    ensures s[i] !in SMALL_LETTERS ==> Upper(s)[i] == s[i]
  {
    forall k | 0 <= k < 26 ensures SMALL_LETTERS[k] as int == 97 + k && CAPITAL_LETTERS[k] as int == 65 + k {
      AlphabetAt(k);
    }
    if 'a' <= s[i] <= 'z' { assert SMALL_LETTERS[s[i] as int - 97] == s[i]; }
  }

  lemma AlphabetAt(k: nat)
    requires k < 26
    ensures SMALL_LETTERS[k] as int == 97 + k && CAPITAL_LETTERS[k] as int == 65 + k
  {
  }

  /** A line, a newline, and what follows. */
  function Over(line: string, rest: string): string {
    line + "\n" + rest
  }

  /** The four forms, line by line. */
  lemma MessageIs(r: Request)
    ensures Message(r) == match r
      case ProspectV1(timestamp, nonce, verb, path, digest) =>
        Over("v1", Over(timestamp, Over(nonce, Over(Upper(verb), Over(path, digest)))))
      case ProspectV2(timestamp, nonce, key, client, verb, path, digest) =>
        Over("v2", Over(timestamp, Over(nonce, Over(key, Over(client, Over(Upper(verb), Over(path, digest)))))))
      case Booking(timestamp, nonce, submission, path, digest) =>
        Over("booking-v1", Over(timestamp, Over(nonce, Over(submission, Over("POST", Over(path, digest))))))
      case EventInterest(timestamp, nonce, verb, path, digest) =>
        Over("event-interest-v1", Over(timestamp, Over(nonce, Over(verb, Over(path, digest)))))
  {
    var f, rest := Front(r), Over(r.path, r.digest);
    JoinFront(f, r.path, r.digest);
    match r
    case ProspectV1(_, _, _, _, _) => StackFour(f, rest);
    case ProspectV2(_, _, _, _, _, _, _) => StackFour(f[2..], rest);
    case Booking(_, _, _, _, _) => StackFour(f[1..], rest);
    case EventInterest(_, _, _, _, _) => StackFour(f, rest);
  }

  /** The lines of the front over the rest. */
  function Stack(front: seq<string>, rest: string): string {
    if front == [] then rest else Over(front[0], Stack(front[1..], rest))
  }

  lemma {:induction false} StackFour(f: seq<string>, rest: string)
    requires |f| == 4
    ensures Stack(f, rest) == Over(f[0], Over(f[1], Over(f[2], Over(f[3], rest))))
  {
    assert f[1..][1..] == f[2..] && f[2..][1..] == f[3..] && f[3..][1..] == [];
    assert Stack(f[3..], rest) == Over(f[3], rest);
    assert Stack(f[2..], rest) == Over(f[2], Stack(f[3..], rest));
  }

  lemma {:induction false} JoinFront(front: seq<string>, path: string, digest: string)
    ensures Join(front + [path, digest]) == Stack(front, Over(path, digest))
  {
    if front == [] {
      JoinMore(path, [digest]);
      assert front + [path, digest] == [path, digest];
    } else {
      JoinFront(front[1..], path, digest);
      JoinMore(front[0], front[1..] + [path, digest]);
      assert front + [path, digest] == [front[0]] + (front[1..] + [path, digest]);
    }
  }

  lemma {:induction false} JoinMore(first: string, rest: seq<string>)
    requires rest != []
    ensures Join([first] + rest) == Over(first, Join(rest))
  {
    assert ([first] + rest)[1..] == rest;
  }

  // ---------- a reader ----------

  function FirstLine(m: string): string {
    if m == [] || m[0] == NEWLINE then [] else [m[0]] + FirstLine(m[1..])
  }

  /** The first n lines and what follows them. */
  function Lines(m: string, n: nat): Option<(seq<string>, string)> {
    if n == 0 then Some(([], m))
    else
      var line := FirstLine(m);
      if |line| >= |m| then None
      else
        var rest := Lines(m[|line| + 1..], n - 1);
        if rest.None? then None else Some(([line] + rest.value.0, rest.value.1))
  }

  /** Path and digest: the digest is the last line, and it is the path that takes all newlines before it. */
  function PathAndDigest(m: string): Option<(string, string)> {
    if |m| < DIGEST_LENGTH + 1 then None
    else Some((m[..|m| - DIGEST_LENGTH - 1], m[|m| - DIGEST_LENGTH..]))
  }

  function FrontLength(protocol: string): nat {
    if protocol == "v2" then 6 else if protocol == "booking-v1" then 5 else 4
  }

  function ReadFrom(f: seq<string>, path: string, digest: string): Option<Request> {
    if |f| < 4 then None
    else if f[0] == "v1" then Some(ProspectV1(f[1], f[2], f[3], path, digest))
    else if f[0] == "v2" && |f| == 6 then Some(ProspectV2(f[1], f[2], f[3], f[4], f[5], path, digest))
    else if f[0] == "booking-v1" && |f| == 5 && f[4] == "POST" then Some(Booking(f[1], f[2], f[3], path, digest))
    else if f[0] == "event-interest-v1" then Some(EventInterest(f[1], f[2], f[3], path, digest))
    else None
  }

  function Read(m: string): Option<Request> {
    var front := Lines(m, FrontLength(FirstLine(m)));
    if front.None? then None
    else
      var tail := PathAndDigest(front.value.1);
      if tail.None? then None else ReadFrom(front.value.0, tail.value.0, tail.value.1)
  }

  // ---------- it reads back every message ----------

  lemma {:induction false} FirstLineIs(line: string, rest: string)
    requires Line(line)
    ensures FirstLine(line + [NEWLINE] + rest) == line
  {
    var m := line + [NEWLINE] + rest;
    if line != [] {
      assert m[1..] == line[1..] + [NEWLINE] + rest;
      FirstLineIs(line[1..], rest);
    }
  }

  lemma {:induction false} LinesOfJoin(front: seq<string>, path: string, digest: string)
    requires forall i :: 0 <= i < |front| ==> Line(front[i])
    ensures Lines(Join(front + [path, digest]), |front|) == Some((front, path + [NEWLINE] + digest))
    decreases |front|
  {
    var parts := front + [path, digest];
    if front == [] {
      assert parts == [path, digest] && parts[1..] == [digest];
    } else {
      assert parts[1..] == front[1..] + [path, digest];
      LinesOfJoin(front[1..], path, digest);
      var rest := Join(parts[1..]);
      FirstLineIs(front[0], rest);
      assert (front[0] + [NEWLINE] + rest)[|front[0]| + 1..] == rest;
      assert [front[0]] + front[1..] == front;
    }
  }

  /** The signed form of a request, apart from the letter case of a prospect's method. */
  function Normal(r: Request): Request {
    if r.ProspectV1? || r.ProspectV2? then r.(verb := Upper(r.verb)) else r
  }

  lemma TailReads(path: string, digest: string)
    requires |digest| == DIGEST_LENGTH
    ensures PathAndDigest(path + [NEWLINE] + digest) == Some((path, digest))
  {
    var m := path + [NEWLINE] + digest;
    assert m[..|m| - DIGEST_LENGTH - 1] == path && m[|m| - DIGEST_LENGTH..] == digest;
  }

  /** Every message reads back as the request it was made from, newlines in the path or not. */
  lemma MessageReads(r: Request)
    requires Checked(r)
    ensures Read(Message(r)) == Some(Normal(r))
  {
    var front := Front(r);
    FrontIs(r);
    LinesOfJoin(front, r.path, r.digest);
    TailReads(r.path, r.digest);
    var parts := front + [r.path, r.digest];
    assert parts[0] == front[0] && |parts| > 1;
    FirstLineIs(front[0], Join(parts[1..]));
  }

  lemma FrontIs(r: Request)
    requires Checked(r)
    ensures forall i :: 0 <= i < |Front(r)| ==> Line(Front(r)[i])
    ensures FrontLength(Front(r)[0]) == |Front(r)|
    ensures ReadFrom(Front(r), r.path, r.digest) == Some(Normal(r))
  {
  }

  /**
   * The messages are uniquely readable: requests of any of the four forms are signed over the same bytes
   * exactly when they agree on protocol, timestamp, nonce, keys, path and digest, and on the method up to the
   * letter case of a prospect's.
   */
  lemma SignedIsUnique(a: Request, b: Request)
    requires Checked(a) && Checked(b)
    ensures Signed(a) == Signed(b) <==> Normal(a) == Normal(b)
  {
    if Signed(a) == Signed(b) {
      Utf8.EncodeInjective(Scalars(Message(a)), Scalars(Message(b)));
      ScalarsInjective(Message(a), Message(b));
      MessageReads(a);
      MessageReads(b);
    }
    assert Normal(a) == Normal(b) ==> Front(a) == Front(b);
  }

  lemma ScalarsInjective(a: string, b: string)
    requires Scalars(a) == Scalars(b)
    ensures a == b
  {
    assert |Scalars(a)| == |a| && |Scalars(b)| == |b|;
    forall i | 0 <= i < |a| ensures a[i] == b[i] {
      assert Scalars(a)[i] == Scalars(b)[i];
    }
  }

  /** The checks are needed: with a newline in the nonce, two different requests would share a signature. */
  lemma NewlineInNonceConfuses(timestamp: string, nonce: string, verb: string, other: string, path: string, digest: string)
    ensures var a := ProspectV1(timestamp, nonce + [NEWLINE] + Upper(verb), other, path, digest);
      var b := ProspectV1(timestamp, nonce, verb, Upper(other) + [NEWLINE] + path, digest);
      Signed(a) == Signed(b) && Normal(a) != Normal(b)
  {
    var c, d := Upper(verb), Upper(other);
    var a := ProspectV1(timestamp, nonce + [NEWLINE] + c, other, path, digest);
    var b := ProspectV1(timestamp, nonce, verb, d + [NEWLINE] + path, digest);
    JoinSix("v1", timestamp, a.nonce, d, path, digest);
    JoinSix("v1", timestamp, nonce, c, b.path, digest);
    assert Front(a) + [a.path, a.digest] == ["v1", timestamp, a.nonce, d, path, digest];
    assert Front(b) + [b.path, b.digest] == ["v1", timestamp, nonce, c, b.path, digest];
    var tail := path + [NEWLINE] + digest;
    Regroup(nonce, c, d + [NEWLINE] + tail);
    Regroup(d, path, digest);
    assert Message(a) == Message(b);
    assert |a.nonce| > |nonce|;
  }

  lemma Regroup(x: string, y: string, z: string)
    ensures (x + [NEWLINE] + y) + [NEWLINE] + z == x + [NEWLINE] + (y + [NEWLINE] + z)
  {
  }

  lemma JoinSix(a: string, b: string, c: string, d: string, e: string, f: string)
    ensures Join([a, b, c, d, e, f]) ==
            a + [NEWLINE] + (b + [NEWLINE] + (c + [NEWLINE] + (d + [NEWLINE] + (e + [NEWLINE] + f))))
  {
    assert [a, b, c, d, e, f][1..] == [b, c, d, e, f] && [b, c, d, e, f][1..] == [c, d, e, f];
    assert [c, d, e, f][1..] == [d, e, f] && [d, e, f][1..] == [e, f] && [e, f][1..] == [f];
    assert Join([e, f]) == e + [NEWLINE] + f;
    assert Join([d, e, f]) == d + [NEWLINE] + Join([e, f]);
    assert Join([c, d, e, f]) == c + [NEWLINE] + Join([d, e, f]);
    assert Join([b, c, d, e, f]) == b + [NEWLINE] + Join([c, d, e, f]);
  }
}
