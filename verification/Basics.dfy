/** What several parts of the model share. */
module Basics {

  datatype Option<+T> = None | Some(value: T)

  type byte = x: int | 0 <= x < 256

  /** The order of `std::string` and of Python's `str`. */
  predicate StringLess(s: string, t: string) {
    t != "" && (s == "" || s[0] < t[0] || (s[0] == t[0] && StringLess(s[1..], t[1..])))
  }

  lemma {:induction false} LessTrichotomy(a: string, b: string)
    ensures StringLess(a, b) || a == b || StringLess(b, a)
    ensures !(StringLess(a, b) && StringLess(b, a)) && !StringLess(a, a)
  {
    if a != "" {
      LessTrichotomy(a[1..], a[1..]);
      if b != "" {
        LessTrichotomy(a[1..], b[1..]);
        assert a == [a[0]] + a[1..] && b == [b[0]] + b[1..];
      }
    }
  }

  lemma {:induction false} LessTransitive(a: string, b: string, c: string)
    requires StringLess(a, b) && StringLess(b, c)
    ensures StringLess(a, c)
  {
    if a != "" && a[0] == b[0] == c[0] {
      LessTransitive(a[1..], b[1..], c[1..]);
    }
  }

  predicate IsBlank(c: char) {
    c == ' ' || '\t' <= c <= '\r'
  }

  function Join(separator: string, parts: seq<string>): string {
    if parts == [] then ""
    else if |parts| == 1 then parts[0]
    else parts[0] + separator + Join(separator, parts[1..])
  }

  function Least(a: nat, b: nat): nat {
    if b < a then b else a
  }

  lemma TakeNext<T>(list: seq<T>, i: nat)
    requires i < |list|
    ensures list[..i + 1] == list[..i] + [list[i]] && list[..i + 1][..i] == list[..i]
  {
  }

  lemma Assoc<T>(a: seq<T>, b: seq<T>, c: seq<T>)
    ensures (a + b) + c == a + (b + c)
  {
  }

  /** A place behind all others. */
  lemma LaterPlace(at: seq<nat>, n: nat)
    requires (forall k, l | 0 <= k < l < |at| :: at[k] < at[l]) && forall k | 0 <= k < |at| :: at[k] < n
    ensures forall k, l | 0 <= k < l < |at + [n]| :: (at + [n])[k] < (at + [n])[l]
    ensures forall i: nat :: i in at + [n] <==> i in at || i == n
  {
  }
}
