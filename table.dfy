/**
 * Cells, rows and the JavaScript built-ins the table code relies on.
 *
 * A row is a plain JavaScript object: its own keys in insertion order and the
 * value stored under each key. Reading a key the row does not have gives
 * `undefined`, which a lookup returns as `None`.
 */
module Table {
  import opened Wrappers

  /** A stored cell: a JavaScript number, a string, or `null`. */
  datatype Cell = Num(num: real) | Str(text: string) | Null

  /** A row object: its own keys in insertion order and the value under each. */
  datatype Row = Row(keys: seq<string>, cells: map<string, Cell>)

  const EmptyRow: Row := Row([], map[])

  /** The keys are distinct and are exactly the keys that hold a value (every real object is so). */
  ghost predicate WellFormed(r: Row)
  {
    && (forall i, j :: 0 <= i < j < |r.keys| ==> r.keys[i] != r.keys[j])
    && (forall c :: c in r.cells <==> c in r.keys)
  }

  /** `row[col]`: the stored value, or `None` for `undefined`. */
  function Get(r: Row, col: string): Option<Cell>
  {
    if col in r.cells then Some(r.cells[col]) else None
  }

  /** `row[col] = v`: a new key is appended to the key order, an existing key keeps its place. */
  function Set(r: Row, col: string, v: Cell): (r': Row)
    ensures Get(r', col) == Some(v)
    ensures forall c :: c != col ==> Get(r', c) == Get(r, c)
  {
    Row(if col in r.keys then r.keys else r.keys + [col], r.cells[col := v])
  }

  /** Assigning a key keeps an object proper: its keys stay distinct and stay the keys holding a value. */
  lemma SetKeepsWellFormed(r: Row, col: string, v: Cell)
    requires WellFormed(r)
    ensures WellFormed(Set(r, col, v))
  {
  }

  /** A value is missing when it is `null`, `undefined` or `''`; the number 0 is present. */
  predicate IsMissing(v: Option<Cell>)
  {
    v == None || v == Some(Null) || v == Some(Str(""))
  }

  /**
   * The JavaScript built-ins whose exact behaviour the model does not fix.
   * parseFloat(s) is Some(x) when `parseFloat(s)` is a finite number x and
   * None when it is NaN or an infinity; dateParses(s) says that
   * `Date.parse(s)` is not NaN; numberToString(x) is `String(x)`.
   */
  datatype Host = Host(
    parseFloat: string -> Option<real>,
    dateParses: string -> bool,
    numberToString: real -> string)

  /** JavaScript `String(v)` of a looked-up value. */
  function CellString(h: Host, v: Option<Cell>): string
  {
    match v
    case None => "undefined"
    case Some(Null) => "null"
    case Some(Num(x)) => h.numberToString(x)
    case Some(Str(s)) => s
  }

  /** How many of the first `n` rows have a present `col` cell. */
  function PresentCount(rows: seq<Row>, col: string, n: nat): (k: nat)
    requires n <= |rows|
    ensures k <= n
  {
    if n == 0 then 0
    else PresentCount(rows, col, n - 1) + (if IsMissing(Get(rows[n - 1], col)) then 0 else 1)
  }

  /** The count reaches `n` exactly when none of the first `n` cells is missing, and is 0 exactly when all are. */
  lemma {:induction false} PresentCountExtremes(rows: seq<Row>, col: string, n: nat)
    requires n <= |rows|
    ensures PresentCount(rows, col, n) == n <==> forall i :: 0 <= i < n ==> !IsMissing(Get(rows[i], col))
    ensures PresentCount(rows, col, n) == 0 <==> forall i :: 0 <= i < n ==> IsMissing(Get(rows[i], col))
  {
    if n > 0 {
      PresentCountExtremes(rows, col, n - 1);
    }
  }

  /** The count over a prefix only looks at that prefix. */
  lemma {:induction false} PresentCountPrefix(a: seq<Row>, b: seq<Row>, col: string, n: nat)
    requires n <= |a| && n <= |b| && a[..n] == b[..n]
    ensures PresentCount(a, col, n) == PresentCount(b, col, n)
  {
    if n > 0 {
      assert a[n - 1] == a[..n][n - 1] == b[..n][n - 1] == b[n - 1];
      assert a[..n - 1] == a[..n][..n - 1];
      assert b[..n - 1] == b[..n][..n - 1];
      PresentCountPrefix(a, b, col, n - 1);
    }
  }

  /** Counting over a longer prefix never gives less. */
  lemma {:induction false} PresentCountMonotone(rows: seq<Row>, col: string, m: nat, n: nat)
    requires m <= n <= |rows|
    ensures PresentCount(rows, col, m) <= PresentCount(rows, col, n)
    decreases n
  {
    if m < n {
      PresentCountMonotone(rows, col, m, n - 1);
    }
  }
}
