/**
 * The parts of Java's semantics that the updater's rules depend on: null references,
 * the exceptions those rules can raise, 32-bit `int` arithmetic, and the few
 * `String` / `List` library operations they call.
 */
module JavaLang {

  /** A value that may be absent; for a Java reference, `None` is `null`. */
  datatype Option<+T> = None | Some(value: T) {
    function GetOr(default: T): T {
      match this
      case Some(v) => v
      case None => default
    }
  }

  /** The Java exceptions the modelled rules can raise. */
  datatype JavaException =
    | NullPointer          // NullPointerException
    | IllegalArgument      // IllegalArgumentException
    | IllegalState         // IllegalStateException
    | UnknownUpdateStatus  // RuntimeException("Unknown update status")
    | Arithmetic           // ArithmeticException (integer division by zero)
    | IndexOutOfBounds     // IndexOutOfBoundsException

  /** Either a normal result or the exception that was thrown instead. */
  datatype Result<+T> = Ok(value: T) | Err(error: JavaException)

  /** A Java `String` reference. */
  type JString = Option<string>

  /** The text Java's `+` produces for a String operand: `null` prints as "null". */
  function ConcatText(s: JString): (r: string)
    ensures s.Some? ==> r == s.value
    ensures s.None? ==> r == "null"
  {
    match s
    case Some(v) => v
    case None => "null"
  }

  // ---------------------------------------------------------------------------
  // 32-bit int arithmetic

  const INT_MIN: int := -0x8000_0000
  const INT_MAX: int := 0x7fff_ffff

  predicate IsInt32(x: int) {
    INT_MIN <= x <= INT_MAX
  }

  /** The value Java's `int` arithmetic keeps of a mathematical result (two's complement). */
  function Wrap32(x: int): (r: int)
    ensures IsInt32(r)
    ensures IsInt32(x) ==> r == x
    ensures (x - r) % 0x1_0000_0000 == 0
  {
    var m := x % 0x1_0000_0000;
    if m > INT_MAX then m - 0x1_0000_0000 else m
  }

  /**
   * Java's `/` on integers: the quotient is truncated toward zero, so it agrees with
   * Dafny's Euclidean `/` only when the dividend is non-negative.
   */
  function JavaDiv(a: int, b: int): (r: int)
    requires b != 0
    ensures a >= 0 && b > 0 ==> r == a / b
    ensures a < 0 && b > 0 ==> r == -((-a) / b)
  {
    if a >= 0 && b > 0 then a / b
    else if a < 0 && b > 0 then -((-a) / b)
    else if a >= 0 then -(a / (-b))
    else (-a) / (-b)
  }

  // ---------------------------------------------------------------------------
  // String operations

  /** `s.trim()`: strips every leading and trailing character at or below U+0020. */
  function Trim(s: string): string {
    TrimEnd(TrimStart(s))
  }

  function TrimStart(s: string): (r: string)
    ensures |r| <= |s| && r == s[|s| - |r|..]
  {
    if s != [] && s[0] <= ' ' then TrimStart(s[1..]) else s
  }

  function TrimEnd(s: string): (r: string)
    ensures |r| <= |s| && r == s[..|r|]
  {
    if s != [] && s[|s| - 1] <= ' ' then TrimEnd(s[..|s| - 1]) else s
  }

  /** `s.trim().isEmpty()` */
  predicate IsBlank(s: string) {
    Trim(s) == ""
  }

  lemma {:induction false} TrimStartEmpty(s: string)
    ensures TrimStart(s) == "" <==> forall i :: 0 <= i < |s| ==> s[i] <= ' '
  {
    if s != [] && s[0] <= ' ' {
      TrimStartEmpty(s[1..]);
      assert forall i :: 1 <= i < |s| ==> s[i] == s[1..][i - 1];
    }
  }

  lemma {:induction false} TrimEndEmptyOnlyIfEmpty(s: string)
    requires s == [] || s[0] > ' '
    ensures TrimEnd(s) == "" <==> s == ""
  {
    if s != [] && s[|s| - 1] <= ' ' {
      TrimEndEmptyOnlyIfEmpty(s[..|s| - 1]);
    }
  }

  /** A string is blank exactly when it holds only control characters and spaces. */
  lemma BlankIffSpaces(s: string)
    ensures IsBlank(s) <==> forall i :: 0 <= i < |s| ==> s[i] <= ' '
  {
    var t := TrimStart(s);
    TrimStartEmpty(s);
    if t != [] {
      assert t[0] > ' ' by {
        TrimStartStopsAtVisible(s);
      }
    }
    TrimEndEmptyOnlyIfEmpty(t);
  }

  lemma {:induction false} TrimStartStopsAtVisible(s: string)
    ensures TrimStart(s) == [] || TrimStart(s)[0] > ' '
  {
    if s != [] && s[0] <= ' ' {
      TrimStartStopsAtVisible(s[1..]);
    }
  }

  /** ASCII upper-casing, the part of `Character.toUpperCase` the model keeps. */
  function AsciiUpper(c: char): char {
    if 'a' <= c <= 'z' then (c as int - 32) as char else c
  }

  predicate CharEqualsIgnoreCase(a: char, b: char) {
    a == b || AsciiUpper(a) == AsciiUpper(b)
  }

  /** `s.equalsIgnoreCase(t)` for a non-null argument. */
  predicate EqualsIgnoreCase(s: string, t: string) {
    |s| == |t| && forall i :: 0 <= i < |s| ==> CharEqualsIgnoreCase(s[i], t[i])
  }

  lemma EqualsIgnoreCaseSymmetric(s: string, t: string)
    ensures EqualsIgnoreCase(s, t) <==> EqualsIgnoreCase(t, s)
  {
  }

  predicate EndsWith(s: string, suffix: string) {
    |suffix| <= |s| && s[|s| - |suffix|..] == suffix
  }

  /** `s.lastIndexOf(c)` */
  function LastIndexOf(s: string, c: char): (r: int)
    ensures -1 <= r < |s|
    ensures r == -1 <==> c !in s
    ensures r >= 0 ==> s[r] == c && forall j :: r < j < |s| ==> s[j] != c
  {
    if s == [] then -1
    else if s[|s| - 1] == c then |s| - 1
    else
      var p := LastIndexOf(s[..|s| - 1], c);
      assert s == s[..|s| - 1] + [s[|s| - 1]];
      p
  }

  /** The decimal digits of `n`, as `Integer.toString` writes a non-negative int. */
  function NatToString(n: nat): (r: string)
    ensures |r| >= 1
    ensures forall i :: 0 <= i < |r| ==> '0' <= r[i] <= '9'
  {
    var d := ((n % 10) + '0' as int) as char;
    if n < 10 then [d] else NatToString(n / 10) + [d]
  }

  /** The number a string of decimal digits denotes (a non-digit counts as 0). */
  function DecimalValue(s: string): nat {
    if s == [] then 0
    else
      var c := s[|s| - 1];
      DecimalValue(s[..|s| - 1]) * 10 + (if '0' <= c <= '9' then c as int - '0' as int else 0)
  }

  /** `NatToString` writes exactly the digits of `n`: reading them back gives `n`. */
  lemma {:induction false} NatToStringValue(n: nat)
    ensures DecimalValue(NatToString(n)) == n
  {
    var s := NatToString(n);
    assert s[..|s| - 1] == if n < 10 then [] else NatToString(n / 10);
    if n >= 10 {
      NatToStringValue(n / 10);
    }
  }

  /** Different numbers are written differently. */
  lemma NatToStringInjective(a: nat, b: nat)
    ensures NatToString(a) == NatToString(b) ==> a == b
  {
    NatToStringValue(a);
    NatToStringValue(b);
  }

  // ---------------------------------------------------------------------------
  // java.util.List operations

  /** `list.indexOf(x)` */
  function IndexOf<T(==)>(s: seq<T>, x: T): (r: int)
    ensures -1 <= r < |s|
    ensures r == -1 <==> x !in s
    ensures r >= 0 ==> s[r] == x && forall j :: 0 <= j < r ==> s[j] != x
  {
    if s == [] then -1
    else if s[0] == x then 0
    else
      var p := IndexOf(s[1..], x);
      assert forall j :: 1 <= j < |s| ==> s[j] == s[1..][j - 1];
      if p == -1 then -1 else p + 1
  }

  /** `list.remove(x)` for an object argument: drops the first occurrence, if any. */
  function RemoveFirst<T(==)>(s: seq<T>, x: T): (r: seq<T>)
    ensures x !in s ==> r == s
    ensures x in s ==> r == s[..IndexOf(s, x)] + s[IndexOf(s, x) + 1..]
  {
    if s == [] then []
    else if s[0] == x then s[1..]
    else
      var rest := RemoveFirst(s[1..], x);
      assert s == [s[0]] + s[1..];
      if x in s[1..] then
        var k := IndexOf(s[1..], x);
        assert IndexOf(s, x) == k + 1;
        assert s[..k + 1] == [s[0]] + s[1..][..k];
        assert s[k + 2..] == s[1..][k + 1..];
        [s[0]] + rest
      else
        [s[0]] + rest
  }

  /** Removing an element shortens the list by one exactly when the element was there. */
  lemma RemoveFirstLength<T>(s: seq<T>, x: T)
    ensures |RemoveFirst(s, x)| == if x in s then |s| - 1 else |s|
  {
  }

  /** Removing takes away one copy of the element, if it was there, and nothing else. */
  lemma {:induction false} RemoveFirstMultiset<T>(s: seq<T>, x: T)
    ensures multiset(RemoveFirst(s, x)) == multiset(s) - multiset{x}
  {
    if s == [] {
    } else if s[0] == x {
      assert s == [s[0]] + s[1..];
    } else {
      RemoveFirstMultiset(s[1..], x);
      assert s == [s[0]] + s[1..];
      assert RemoveFirst(s, x) == [s[0]] + RemoveFirst(s[1..], x);
    }
  }
}
