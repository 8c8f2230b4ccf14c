/** Failure-compatible result types used for the exceptions the C# code throws. */
module Wrappers {

  datatype Option<+T> = None | Some(value: T)

  datatype Result<+T, +E> = Success(value: T) | Failure(error: E) {

    predicate IsFailure() {
      Failure?
    }

    function PropagateFailure<U>(): Result<U, E>
      requires Failure?
    {
      Failure(error)
    }

    function Extract(): T
      requires Success?
    {
      value
    }
  }
}

/** The fixed-width unsigned integers of the wire format, and the 16-bit
    wrap-around that `UInt16` arithmetic performs. */
module Bytes {

  type U8 = x: int | 0 <= x < 256
  type U16 = x: int | 0 <= x < 0x1_0000

  /** The truncating `(UInt16)` cast of C#. */
  function Wrap16(x: int): U16 {
    x % 0x1_0000
  }

  /** `x++` on a `UInt16`: 65535 wraps to 0. */
  function Inc16(x: U16): (r: U16)
    ensures x < 0xFFFF ==> r == x + 1
    ensures x == 0xFFFF ==> r == 0
  {
    Wrap16(x + 1)
  }

  /** The truncating `(byte)` cast of a count. */
  function ByteOf(n: nat): (r: U8)
    ensures n < 256 ==> r == n
  {
    n % 256
  }

  /** Little-endian halves of a `UInt16`, as `BinaryWriter.Write(UInt16)` emits them. */
  function LowByte(x: U16): U8 {
    x % 256
  }

  function HighByte(x: U16): U8 {
    x / 256
  }

  /** `BinaryReader.ReadUInt16` over two bytes. */
  function FromLittleEndian(lo: U8, hi: U8): (r: U16)
    ensures LowByte(r) == lo && HighByte(r) == hi
  {
    lo + 256 * hi
  }

  lemma LittleEndianRoundTrip(x: U16)
    ensures FromLittleEndian(LowByte(x), HighByte(x)) == x
  {
  }
}

/** The message tags: the first byte of every datagram (`SC_Message` for
    server-to-client, `CS_Message` for client-to-server). */
module Messages {
  import opened Bytes
  import opened Wrappers

  datatype ServerMessage = SynAck | StartGame | GameStep | GameStepCollection | NewPlayer {
    function Tag(): U8 {
      match this
      case SynAck => 1
      case StartGame => 2
      case GameStep => 3
      case GameStepCollection => 4
      case NewPlayer => 5
    }
  }

  datatype ClientMessage = Syn | SynAckAck | JoinGame | StartReady | PlayerInput {
    function Tag(): U8 {
      match this
      case Syn => 1
      case SynAckAck => 2
      case JoinGame => 3
      case StartReady => 4
      case PlayerInput => 5
    }
  }

  /** Reading a tag byte back as a server message; bytes outside 1..5 name no message. */
  function ServerMessageOf(tag: U8): (r: Option<ServerMessage>)
    ensures r.Some? <==> 1 <= tag <= 5
    ensures r.Some? ==> r.value.Tag() == tag
  {
    if tag == 1 then Some(SynAck)
    else if tag == 2 then Some(StartGame)
    else if tag == 3 then Some(GameStep)
    else if tag == 4 then Some(GameStepCollection)
    else if tag == 5 then Some(NewPlayer)
    else None
  }

  function ClientMessageOf(tag: U8): (r: Option<ClientMessage>)
    ensures r.Some? <==> 1 <= tag <= 5
    ensures r.Some? ==> r.value.Tag() == tag
  {
    if tag == 1 then Some(Syn)
    else if tag == 2 then Some(SynAckAck)
    else if tag == 3 then Some(JoinGame)
    else if tag == 4 then Some(StartReady)
    else if tag == 5 then Some(PlayerInput)
    else None
  }

  lemma ServerTagRoundTrip(m: ServerMessage)
    ensures ServerMessageOf(m.Tag()) == Some(m)
  {
  }

  lemma ClientTagRoundTrip(m: ClientMessage)
    ensures ClientMessageOf(m.Tag()) == Some(m)
  {
  }
}

/** Small facts about sequences and maps, used by the proofs to keep each
    proof obligation small. */
module Seqs {
  /** Splitting a fixed-size header off the front of a datagram. */
  lemma SplitHeader<T>(header: seq<T>, body: seq<T>, rest: seq<T>)
    ensures (header + body) + rest == header + (body + rest)
    ensures ((header + body) + rest)[|header|..] == body + rest
    ensures forall i :: 0 <= i < |header| ==> ((header + body) + rest)[i] == header[i]
  {
  }

  /** Moving the head of `xs` onto the end of `acc`. */
  lemma Uncons<T>(acc: seq<T>, xs: seq<T>)
    requires xs != []
    ensures acc + [xs[0]] + xs[1..] == acc + xs
  {
  }

  lemma SetExt<T>(a: set<T>, b: set<T>)
    requires forall k :: k in a <==> k in b
    ensures a == b
  {
  }

  lemma MapExt<K, V>(a: map<K, V>, b: map<K, V>)
    requires forall k :: k in a <==> k in b
    requires forall k :: k in a ==> a[k] == b[k]
    ensures a == b
  {
  }
}

/** Remainders: C#'s truncating `%` and facts about Dafny's Euclidean `%`. */
module ModArith {
  /** C#'s `a % b` for `b > 0`: the remainder takes the sign of `a`. */
  function CRem(a: int, b: int): (r: int)
    requires b > 0
    ensures a >= 0 ==> r == a % b
    ensures a < 0 ==> -b < r <= 0 && r == -((-a) % b)
  {
    if a >= 0 then a % b else -((-a) % b)
  }

  lemma MulBounds(a: int, n: int)
    requires n > 0
    ensures a >= 1 ==> a * n >= n
    ensures a <= -1 ==> a * n <= -n
  {
  }

  /** The remainder is the only `r` in `[0, n)` with `x == q * n + r`. */
  lemma ModUnique(x: int, n: int, q: int, r: int)
    requires n > 0 && 0 <= r < n && x == q * n + r
    ensures x % n == r
  {
    var q', r' := x / n, x % n;
    assert (q - q') * n == r' - r;
    MulBounds(q - q', n);
  }

  /** Taking the remainder first does not change a later remainder. */
  lemma ModSub(a: int, k: int, n: int)
    requires n > 0
    ensures (a % n - k) % n == (a - k) % n
  {
    var q, t := (a - k) / n, (a - k) % n;
    assert a % n - k == (q - a / n) * n + t;
    ModUnique(a % n - k, n, q - a / n, t);
  }

  /** Numbers less than `n` apart have different remainders. */
  lemma ModDistinct(j: int, k: int, n: int)
    requires n > 0 && 0 < k - j < n
    ensures j % n != k % n
  {
    assert k - j == (k / n - j / n) * n + (k % n - j % n);
    MulBounds(k / n - j / n, n);
  }

  lemma ModSmall(x: int, n: int)
    requires 0 <= x < n
    ensures x % n == x
  {
  }
}
