/**
 * The expression-only parts of the ang-select dropdown component:
 * the key-code enumeration, the prefix filter used by the search box,
 * the index lookup used on external value writes, the payload handed to
 * the value-change callback, and the wrap-around arithmetic of keyboard
 * navigation.
 */
module AngSelectLogic {
  import opened Wrappers

  // ---------------------------------------------------------------------
  // Key codes
  // ---------------------------------------------------------------------

  /** The five keys the component reacts to. */
  datatype Key = Enter | Esc | Space | ArrowUp | ArrowDown

  /** The numeric `KeyboardEvent.which` value of each key. */
  function Code(k: Key): int
  {
    match k
    case Enter => 13
    case Esc => 27
    case Space => 32
    case ArrowUp => 38
    case ArrowDown => 40
  }

  /**
   * The reverse lookup `Key[which]` of a numeric enumeration: the key
   * with that code, or `None` (undefined) for every other number.
   */
  function KeyOf(which: int): (r: Option<Key>)
    ensures r.Some? <==> which in {13, 27, 32, 38, 40}
    ensures r.Some? ==> Code(r.value) == which
  {
    if which == 13 then Some(Enter)
    else if which == 27 then Some(Esc)
    else if which == 32 then Some(Space)
    else if which == 38 then Some(ArrowUp)
    else if which == 40 then Some(ArrowDown)
    else None
  }

  /** Looking a key up by its own code gives that key back. */
  lemma KeyOfCode(k: Key)
    ensures KeyOf(Code(k)) == Some(k)
  {
  }

  // ---------------------------------------------------------------------
  // Sequence access with JavaScript semantics
  // ---------------------------------------------------------------------

  /** `s[i]` on a JavaScript array: undefined outside `0 <= i < |s|`. */
  function At<T>(s: seq<T>, i: int): (r: Option<T>)
    ensures r.Some? <==> 0 <= i < |s|
  {
    if 0 <= i < |s| then Some(s[i]) else None
  }

  // ---------------------------------------------------------------------
  // Prefix search
  // ---------------------------------------------------------------------

  /** `p` occurs in `s` starting at position `j`. */
  predicate OccursAt(s: string, p: string, j: nat)
  {
    j + |p| <= |s| && s[j..j + |p|] == p
  }

  /**
   * `String.prototype.indexOf` started at position `i`: the first
   * position at or after `i` where `p` occurs in `s`, or -1.
   */
  function IndexOfFrom(s: string, p: string, i: nat): (r: int)
    requires i <= |s|
    ensures r == -1 || (i <= r && OccursAt(s, p, r))
    ensures forall j: nat :: i <= j && (r == -1 || j < r) ==> !OccursAt(s, p, j)
    decreases |s| - i
  {
    if i + |p| > |s| then -1
    else if s[i..i + |p|] == p then i
    else IndexOfFrom(s, p, i + 1)
  }

  /** `s.indexOf(p)`; it is 0 exactly when `p` is a prefix of `s`. */
  function StrIndexOf(s: string, p: string): (r: int)
    ensures -1 <= r <= |s|
    ensures r == 0 <==> p <= s
  {
    var r := IndexOfFrom(s, p, 0);
    assert p <= s ==> OccursAt(s, p, 0);
    r
  }

  /**
   * The search box's filter predicate: the normalised display text of
   * `x` has the normalised search term at position 0. `norm` stands for
   * the special-character stripping followed by upper-casing.
   */
  predicate PrefixMatch<T>(norm: string -> string, text: T -> string, term: string, x: T)
  {
    StrIndexOf(norm(text(x)), norm(term)) == 0
  }

  /** `a` occurs in `b` in order, possibly with gaps. */
  ghost predicate Subsequence<T>(a: seq<T>, b: seq<T>)
    decreases |b|
  {
    a == [] || (b != [] && ((a[0] == b[0] && Subsequence(a[1..], b[1..])) || Subsequence(a, b[1..])))
  }

  lemma {:induction false} SubsequenceRefl<T>(s: seq<T>)
    ensures Subsequence(s, s)
    decreases |s|
  {
    if s != [] {
      SubsequenceRefl(s[1..]);
    }
  }

  /** Every element of a subsequence of `b` is an element of `b`. */
  lemma {:induction false} SubsequenceMembers<T>(a: seq<T>, b: seq<T>)
    requires Subsequence(a, b)
    ensures |a| <= |b|
    ensures forall i :: 0 <= i < |a| ==> a[i] in b
    decreases |b|
  {
    if a != [] {
      if a[0] == b[0] && Subsequence(a[1..], b[1..]) {
        SubsequenceMembers(a[1..], b[1..]);
        forall i | 0 < i < |a| ensures a[i] in b {
          assert a[i] == a[1..][i - 1];
        }
      } else {
        SubsequenceMembers(a, b[1..]);
      }
    }
  }

  /** `Array.prototype.filter`: the elements that satisfy `keep`, in order. */
  function Filter<T>(s: seq<T>, keep: T -> bool): (r: seq<T>)
    ensures |r| <= |s|
    ensures forall i :: 0 <= i < |r| ==> keep(r[i]) && r[i] in s
    ensures forall j :: 0 <= j < |s| && keep(s[j]) ==> s[j] in r
    ensures multiset(r) <= multiset(s)
    ensures Subsequence(r, s)
  {
    if s == [] then []
    else
      var rest := Filter(s[1..], keep);
      assert s == [s[0]] + s[1..];
      if keep(s[0]) then [s[0]] + rest else rest
  }

  /**
   * `filter` keeps every copy of a passing element and no copy of a
   * failing one.
   */
  lemma {:induction false} FilterMultiplicity<T>(s: seq<T>, keep: T -> bool, x: T)
    ensures multiset(Filter(s, keep))[x] == if keep(x) then multiset(s)[x] else 0
    decreases |s|
  {
    if s != [] {
      assert s == [s[0]] + s[1..];
      FilterMultiplicity(s[1..], keep, x);
    }
  }

  /** Filtering distributes over concatenation, so it keeps the order of `s`. */
  lemma {:induction false} FilterConcat<T>(a: seq<T>, b: seq<T>, keep: T -> bool)
    ensures Filter(a + b, keep) == Filter(a, keep) + Filter(b, keep)
    decreases |a|
  {
    if a == [] {
      assert a + b == b;
    } else {
      assert (a + b)[0] == a[0];
      assert (a + b)[1..] == a[1..] + b;
      FilterConcat(a[1..], b, keep);
    }
  }

  /** A list all of whose elements pass the filter is left as it is. */
  lemma {:induction false} FilterAll<T>(s: seq<T>, keep: T -> bool)
    requires forall i :: 0 <= i < |s| ==> keep(s[i])
    ensures Filter(s, keep) == s
    decreases |s|
  {
    if s != [] {
      assert keep(s[0]);
      FilterAll(s[1..], keep);
    }
  }

  /** Filtering an already filtered list with the same predicate changes nothing. */
  lemma FilterIdempotent<T>(s: seq<T>, keep: T -> bool)
    ensures Filter(Filter(s, keep), keep) == Filter(s, keep)
  {
    FilterAll(Filter(s, keep), keep);
  }

  /**
   * The list `onSearch` shows for `term`: all items when the term is
   * empty, otherwise the items whose normalised text starts with the
   * normalised term, in their original order.
   */
  function Search<T>(items: seq<T>, text: T -> string, norm: string -> string, term: string): (r: seq<T>)
    ensures term == [] ==> r == items
    ensures term != [] ==> forall i :: 0 <= i < |r| ==> norm(term) <= norm(text(r[i]))
    ensures term != [] ==> forall j :: 0 <= j < |items| && norm(term) <= norm(text(items[j])) ==> items[j] in r
    ensures multiset(r) <= multiset(items)
    ensures Subsequence(r, items)
  {
    if term == [] then
      SubsequenceRefl(items);
      items
    else
      Filter(items, x => PrefixMatch(norm, text, term, x))
  }

  /**
   * With a non-empty term every copy of a matching item is shown and no
   * copy of any other item.
   */
  lemma SearchMultiplicity<T>(items: seq<T>, text: T -> string, norm: string -> string, term: string, x: T)
    requires term != []
    ensures multiset(Search(items, text, norm, term))[x] ==
      if norm(term) <= norm(text(x)) then multiset(items)[x] else 0
  {
    FilterMultiplicity(items, y => PrefixMatch(norm, text, term, y), x);
  }

  /** Searching the result of a search again with the same term gives the same list. */
  lemma SearchIdempotent<T>(items: seq<T>, text: T -> string, norm: string -> string, term: string)
    ensures Search(Search(items, text, norm, term), text, norm, term) == Search(items, text, norm, term)
  {
    if term != [] {
      FilterIdempotent(items, x => PrefixMatch(norm, text, term, x));
    }
  }

  /**
   * A non-empty term that normalises to the empty string (one made only
   * of special characters) filters nothing out.
   */
  lemma SearchBlankTerm<T>(items: seq<T>, text: T -> string, norm: string -> string, term: string)
    requires norm(term) == []
    ensures Search(items, text, norm, term) == items
  {
    if term != [] {
      FilterAll(items, x => PrefixMatch(norm, text, term, x));
    }
  }

  // ---------------------------------------------------------------------
  // Index resolution on external writes
  // ---------------------------------------------------------------------

  /** `Array.prototype.findIndex`: the first position satisfying `p`, or -1. */
  function FindIndex<T>(s: seq<T>, p: T -> bool): (r: int)
    ensures -1 <= r < |s|
    ensures r >= 0 ==> p(s[r])
    ensures forall j :: 0 <= j < |s| && (r == -1 || j < r) ==> !p(s[j])
  {
    if s == [] then -1
    else if p(s[0]) then 0
    else
      var k := FindIndex(s[1..], p);
      if k == -1 then -1 else k + 1
  }

  /** How an external value is matched against an item. */
  predicate SameValue<T(==), K(==)>(bindValue: Option<T -> K>, item: T, v: T)
  {
    match bindValue
    case Some(key) => key(item) == key(v)
    case None => item == v
  }

  /**
   * The index `writeValue` looks up for a non-null value: by the bound
   * key when `bindValue` is set (`findIndex`), by identity otherwise
   * (`indexOf`).
   */
  function ResolveIndex<T(==), K(==)>(items: seq<T>, bindValue: Option<T -> K>, v: T): (r: int)
    ensures -1 <= r < |items|
    ensures r >= 0 ==> SameValue(bindValue, items[r], v)
    ensures forall j :: 0 <= j < |items| && (r == -1 || j < r) ==> !SameValue(bindValue, items[j], v)
  {
    match bindValue
    case Some(key) => FindIndex(items, x => key(x) == key(v))
    case None => FindIndex(items, x => x == v)
  }

  /** A value that is one of the items is always found. */
  lemma ResolveIndexFound<T, K>(items: seq<T>, bindValue: Option<T -> K>, v: T)
    requires v in items
    ensures 0 <= ResolveIndex(items, bindValue, v)
  {
  }

  // ---------------------------------------------------------------------
  // Value-change payload
  // ---------------------------------------------------------------------

  /** What the value-change callback receives: null, a bound key, or the whole item. */
  datatype Change<T, K> = NullValue | KeyValue(key: K) | ItemValue(item: T)

  /** `notifyModelChanged`'s choice of payload for a selection. */
  function ChangeOf<T, K>(bindValue: Option<T -> K>, v: Option<T>): (r: Change<T, K>)
    ensures r.NullValue? <==> v.None?
    ensures r.KeyValue? <==> v.Some? && bindValue.Some?
    ensures r.KeyValue? ==> r.key == bindValue.value(v.value)
    ensures r.ItemValue? ==> r.item == v.value
  {
    match v
    case None => NullValue
    case Some(x) =>
      match bindValue
      case Some(key) => KeyValue(key(x))
      case None => ItemValue(x)
  }

  /** Without a bound key no information is lost: the payload determines the selection. */
  lemma ChangeOfUnboundInjective<T, K>(a: Option<T>, b: Option<T>)
    requires ChangeOf<T, K>(None, a) == ChangeOf<T, K>(None, b)
    ensures a == b
  {
  }

  /**
   * An external write and a later notification agree: the item at the
   * index resolved for `v` produces the same payload as `v` itself.
   */
  lemma ResolvedItemSameChange<T, K>(items: seq<T>, bindValue: Option<T -> K>, v: T)
    requires ResolveIndex(items, bindValue, v) >= 0
    ensures ChangeOf(bindValue, Some(items[ResolveIndex(items, bindValue, v)])) == ChangeOf(bindValue, Some(v))
  {
  }

  // ---------------------------------------------------------------------
  // Wrap-around navigation
  // ---------------------------------------------------------------------

  /** The index after ArrowDown on a list of length `len`. */
  function NextIndex(i: int, len: int): int
  {
    if i == len - 1 then 0 else i + 1
  }

  /** The index after ArrowUp on a list of length `len`. */
  function PrevIndex(i: int, len: int): int
  {
    if i == 0 then len - 1 else i - 1
  }

  /** From no selection (-1) or a valid index, ArrowDown lands on a valid index. */
  lemma NextIndexInRange(i: int, len: int)
    requires 0 < len && -1 <= i < len
    ensures 0 <= NextIndex(i, len) < len
  {
  }

  /** From a valid index, ArrowUp lands on a valid index. */
  lemma PrevIndexInRange(i: int, len: int)
    requires 0 <= i < len
    ensures 0 <= PrevIndex(i, len) < len
  {
  }

  /** On valid indices ArrowUp undoes ArrowDown and ArrowDown undoes ArrowUp. */
  lemma PrevNextInverse(i: int, len: int)
    requires 0 <= i < len
    ensures PrevIndex(NextIndex(i, len), len) == i
    ensures NextIndex(PrevIndex(i, len), len) == i
  {
  }

  /** ArrowUp with nothing selected on a non-empty list goes to -2, not to the last item. */
  lemma PrevFromNone<T>(s: seq<T>)
    ensures PrevIndex(-1, |s|) == -2
    ensures At(s, PrevIndex(-1, |s|)) == None
  {
  }

  /** ArrowDown on an empty list moves -1 to 0, which lies past the end. */
  lemma NextOnEmpty<T>()
    ensures NextIndex(-1, 0) == 0
    ensures At<T>([], NextIndex(-1, 0)) == None
  {
  }

  /** The index after `n` presses of ArrowDown. */
  function NextN(i: int, len: int, n: nat): int
    decreases n
  {
    if n == 0 then i else NextN(NextIndex(i, len), len, n - 1)
  }

  lemma {:induction false} NextNAdd(i: int, len: int, n: nat, m: nat)
    ensures NextN(i, len, n + m) == NextN(NextN(i, len, n), len, m)
    decreases n
  {
    if n > 0 {
      NextNAdd(NextIndex(i, len), len, n - 1, m);
    }
  }

  lemma {:induction false} NextNCount(i: int, len: int, k: nat)
    requires 0 <= i && i + k < len
    ensures NextN(i, len, k) == i + k
    decreases k
  {
    if k > 0 {
      NextNCount(i + 1, len, k - 1);
    }
  }

  /** Pressing ArrowDown `len` times from a valid index comes back to it. */
  lemma NextCycle(i: int, len: int)
    requires 0 <= i < len
    ensures NextN(i, len, len) == i
  {
    NextNAdd(i, len, len - 1 - i, i + 1);
    NextNCount(i, len, len - 1 - i);
    NextNAdd(len - 1, len, 1, i);
    NextNCount(0, len, i);
  }
}
