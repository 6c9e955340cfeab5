/** Fixed-size records read one after another from a byte string. */
module RecordStreams {
  import opened Results
  import opened Words

  const RECORD_BYTES := 144

  predicate Framed(body: Bytes) {
    |body| % RECORD_BYTES == 0
  }

  /** Two consecutive stretches of records: the first error wins. */
  function Both<R, E>(a: Result<seq<R>, E>, b: Result<seq<R>, E>): Result<seq<R>, E> {
    if a.Err? then a else if b.Err? then b else Ok(a.value + b.value)
  }

  function One<R, E>(r: Result<R, E>): Result<seq<R>, E> {
    match r
    case Err(e) => Err(e)
    case Ok(rec) => Ok([rec])
  }

  function DecodeAll<R, E>(dec: Bytes -> Result<R, E>, body: Bytes): (r: Result<seq<R>, E>)
    requires Framed(body)
    ensures r.Ok? ==> |body| == RECORD_BYTES * |r.value|
    decreases |body|
  {
    if body == [] then Ok([])
    else Both(One(dec(body[..RECORD_BYTES])), DecodeAll(dec, body[RECORD_BYTES..]))
  }

  lemma BothAssociates<R, E>(a: Result<seq<R>, E>, b: Result<seq<R>, E>, c: Result<seq<R>, E>)
    ensures Both(a, Both(b, c)) == Both(Both(a, b), c)
  {
    if a.Ok? && b.Ok? && c.Ok? {
      assert a.value + (b.value + c.value) == a.value + b.value + c.value;
    }
  }

  lemma BothUnit<R, E>(d: Result<seq<R>, E>)
    ensures Both(Ok([]), d) == d && Both(d, Ok([])) == d
  {
    if d.Ok? {
      assert [] + d.value == d.value == d.value + [];
    }
  }

  lemma FramesAdd(m: nat, n: nat)
    requires m % RECORD_BYTES == 0 && n % RECORD_BYTES == 0
    ensures (m + n) % RECORD_BYTES == 0
    ensures m > 0 ==> m >= RECORD_BYTES && (m - RECORD_BYTES) % RECORD_BYTES == 0
  {
  }

  lemma FirstRecord<R, E>(dec: Bytes -> Result<R, E>, head: Bytes, rest: Bytes)
    requires |head| == RECORD_BYTES && Framed(rest)
    ensures Framed(head + rest)
    ensures DecodeAll(dec, head + rest) == Both(One(dec(head)), DecodeAll(dec, rest))
  {
    FramesAdd(RECORD_BYTES, |rest|);
    assert (head + rest)[..RECORD_BYTES] == head;
    assert (head + rest)[RECORD_BYTES..] == rest;
  }

  lemma OneMore<R, E>(dec: Bytes -> Result<R, E>, head: Bytes, rest: Bytes, rec: R, recs: seq<R>)
    requires |head| == RECORD_BYTES && dec(head) == Ok(rec) && Framed(rest) && DecodeAll(dec, rest) == Ok(recs)
    ensures Framed(head + rest) && DecodeAll(dec, head + rest) == Ok([rec] + recs)
  {
    FirstRecord(dec, head, rest);
  }

  lemma {:induction false} Concat<R, E>(dec: Bytes -> Result<R, E>, a: Bytes, b: Bytes)
    requires Framed(a) && Framed(b)
    ensures Framed(a + b)
    ensures DecodeAll(dec, a + b) == Both(DecodeAll(dec, a), DecodeAll(dec, b))
    decreases |a|
  {
    FramesAdd(|a|, |b|);
    if a == [] {
      assert a + b == b;
      BothUnit(DecodeAll(dec, b));
    } else {
      var head, rest := a[..RECORD_BYTES], a[RECORD_BYTES..];
      Concat(dec, rest, b);
      assert a == head + rest && a + b == head + (rest + b);
      FirstRecord(dec, head, rest);
      FirstRecord(dec, head, rest + b);
      BothAssociates(One(dec(head)), DecodeAll(dec, rest), DecodeAll(dec, b));
    }
  }

  lemma Single<R, E>(dec: Bytes -> Result<R, E>, b: Bytes)
    requires |b| == RECORD_BYTES
    ensures Framed(b)
    ensures DecodeAll(dec, b) == One(dec(b))
  {
    assert b + [] == b;
    FirstRecord(dec, b, []);
    BothUnit(One(dec(b)));
  }

  lemma FirstPart<R, E>(dec: Bytes -> Result<R, E>, a: Bytes, b: Bytes)
    requires Framed(a) && Framed(b) && Framed(a + b) && DecodeAll(dec, a + b).Ok?
    ensures DecodeAll(dec, a).Ok? && DecodeAll(dec, b).Ok?
    ensures |a| / RECORD_BYTES <= |DecodeAll(dec, a + b).value|
    ensures DecodeAll(dec, a).value == DecodeAll(dec, a + b).value[..|a| / RECORD_BYTES]
  {
    Concat(dec, a, b);
    var x := DecodeAll(dec, a).value;
    assert |a| == RECORD_BYTES * |x|;
    assert (x + DecodeAll(dec, b).value)[..|x|] == x;
  }

  lemma WholeFrames(n: nat)
    ensures RECORD_BYTES * n % RECORD_BYTES == 0 && RECORD_BYTES * n / RECORD_BYTES == n
  {
  }

  lemma FramesSubtract(m: nat, n: nat)
    requires m % RECORD_BYTES == 0 && n % RECORD_BYTES == 0 && m <= n
    ensures (n - m) % RECORD_BYTES == 0
  {
  }

  /** Cutting a valid body at a record boundary keeps exactly the records before it. */
  lemma Prefix<R, E>(dec: Bytes -> Result<R, E>, body: Bytes, n: nat)
    requires Framed(body) && DecodeAll(dec, body).Ok?
    requires n <= |body| && n % RECORD_BYTES == 0
    ensures Framed(body[..n])
    ensures n / RECORD_BYTES <= |DecodeAll(dec, body).value|
    ensures DecodeAll(dec, body[..n]) == Ok(DecodeAll(dec, body).value[..n / RECORD_BYTES])
  {
    var a, b := body[..n], body[n..];
    FramesSubtract(n, |body|);
    assert a + b == body;
    FirstPart(dec, a, b);
  }
}
