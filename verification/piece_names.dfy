/**
 The piece names `"{index}_{row}_{col}"` given at creation, and the two
 decoders `ObtenerFila` / `ObtenerColumna` that split a name on '_' and parse
 its second and third fields.
 */
module PieceNames {
  import opened Board

  /** Why `ObtenerFila` / `ObtenerColumna` would throw: the field is missing
      (`partes[i]` out of range) or is not a number (`int.Parse` fails). */
  datatype ParseError = MissingField(index: nat) | NotANumber(text: string)

  datatype Result<T> = Success(value: T) | Failure(error: ParseError)

  // ---------------------------------------------------------------------------
  // Decimal numerals
  // ---------------------------------------------------------------------------

  predicate IsDigit(ch: char) {
    '0' <= ch <= '9'
  }

  predicate AllDigits(s: string) {
    forall i :: 0 <= i < |s| ==> IsDigit(s[i])
  }

  function DigitChar(d: nat): (ch: char)
    requires d < 10
    ensures IsDigit(ch) && (ch as int) - ('0' as int) == d
  {
    (('0' as int) + d) as char
  }

  /** The decimal numeral of n, as C# string interpolation writes a
      non-negative int: no sign, no leading zeros. */
  function Show(n: nat): (s: string)
    ensures 1 <= |s| && AllDigits(s)
    decreases n
  {
    if n < 10 then [DigitChar(n)] else Show(n / 10) + [DigitChar(n % 10)]
  }

  /** The value of a string of digits, most significant first. */
  function DigitsValue(s: string): nat
    requires AllDigits(s)
    decreases |s|
  {
    if |s| == 0 then 0
    else DigitsValue(s[..|s| - 1]) * 10 + ((s[|s| - 1] as int) - ('0' as int))
  }

  /** `int.Parse` on the strings it can meet here: a non-empty run of
      decimal digits parses to its value, anything else is a format error. */
  function ParseInt(s: string): (r: Result<nat>)
    ensures r.Success? <==> 1 <= |s| && AllDigits(s)
  {
    if 1 <= |s| && AllDigits(s) then Success(DigitsValue(s)) else Failure(NotANumber(s))
  }

  /** Parsing the numeral of n gives back n. */
  lemma {:induction false} ParseShow(n: nat)
    ensures ParseInt(Show(n)) == Success(n)
    decreases n
  {
    var s := Show(n);
    if n < 10 {
      assert s[..|s| - 1] == [];
    } else {
      ParseShow(n / 10);
      assert s[..|s| - 1] == Show(n / 10);
      assert DigitsValue(s) == (n / 10) * 10 + n % 10;
    }
  }

  // ---------------------------------------------------------------------------
  // Splitting on a separator
  // ---------------------------------------------------------------------------

  /** `s.Split(d)`: the maximal runs between occurrences of d, keeping empty
      runs, so there is always one more part than there are separators. */
  function Split(s: string, d: char): (parts: seq<string>)
    ensures |parts| >= 1
    decreases |s|
  {
    if |s| == 0 then [""]
    else
      var rest := Split(s[1..], d);
      if s[0] == d then [""] + rest
      else [[s[0]] + rest[0]] + rest[1..]
  }

  /** `string.Join(d, parts)`, the inverse of Split. */
  function Join(parts: seq<string>, d: char): string
    requires |parts| >= 1
    decreases |parts|
  {
    if |parts| == 1 then parts[0] else parts[0] + [d] + Join(parts[1..], d)
  }

  /** Joining the parts of a split gives back the string. */
  lemma {:induction false} JoinSplit(s: string, d: char)
    ensures Join(Split(s, d), d) == s
    decreases |s|
  {
    if |s| > 0 {
      var rest := Split(s[1..], d);
      JoinSplit(s[1..], d);
      if s[0] == d {
        assert Split(s, d)[1..] == rest;
      } else if |rest| > 1 {
        assert Split(s, d)[1..] == rest[1..];
        assert Join(rest, d) == rest[0] + [d] + Join(rest[1..], d);
      }
    }
  }

  /** A string without the separator splits into itself alone. */
  lemma {:induction false} SplitNoSeparator(a: string, d: char)
    requires d !in a
    ensures Split(a, d) == [a]
    decreases |a|
  {
    if |a| > 0 {
      SplitNoSeparator(a[1..], d);
      assert [a[0]] + a[1..] == a;
    }
  }

  /** A separator-free prefix followed by the separator is split off as the
      first part. */
  lemma {:induction false} SplitFirst(a: string, d: char, rest: string)
    requires d !in a
    ensures Split(a + [d] + rest, d) == [a] + Split(rest, d)
    decreases |a|
  {
    var s := a + [d] + rest;
    if |a| == 0 {
      assert s[1..] == rest;
    } else {
      assert s[1..] == a[1..] + [d] + rest;
      SplitFirst(a[1..], d, rest);
      assert [a[0]] + a[1..] == a;
    }
  }

  /** The number of occurrences of d in s. */
  function Count(s: string, d: char): nat
    decreases |s|
  {
    if |s| == 0 then 0 else (if s[0] == d then 1 else 0) + Count(s[1..], d)
  }

  lemma {:induction false} CountConcat(a: string, b: string, d: char)
    ensures Count(a + b, d) == Count(a, d) + Count(b, d)
    decreases |a|
  {
    if |a| > 0 {
      assert (a + b)[1..] == a[1..] + b;
      CountConcat(a[1..], b, d);
    } else {
      assert a + b == b;
    }
  }

  lemma {:induction false} CountAbsent(s: string, d: char)
    requires d !in s
    ensures Count(s, d) == 0
    decreases |s|
  {
    if |s| > 0 {
      CountAbsent(s[1..], d);
    }
  }

  /** A split has one more part than the string has separators. */
  lemma {:induction false} SplitCount(s: string, d: char)
    ensures |Split(s, d)| == Count(s, d) + 1
    decreases |s|
  {
    if |s| > 0 {
      SplitCount(s[1..], d);
    }
  }

  // ---------------------------------------------------------------------------
  // Piece names
  // ---------------------------------------------------------------------------

  /** The index written first in a piece's name: its row-major position. */
  function Index(n: nat, t: Tile): nat {
    t.row * n + t.col
  }

  /** The name given to the piece created for t: `"{row*size+col}_{row}_{col}"`.
      It holds exactly two separators, and every other character is a digit. */
  function Name(n: nat, t: Tile): (s: string)
    ensures Count(s, '_') == 2
    ensures forall i :: 0 <= i < |s| ==> s[i] == '_' || IsDigit(s[i])
  {
    NumeralFields(Show(Index(n, t)), Show(t.row), Show(t.col));
    Show(Index(n, t)) + "_" + Show(t.row) + "_" + Show(t.col)
  }

  /** Three numerals joined by two separators. */
  lemma NumeralFields(a: string, b: string, c: string)
    requires AllDigits(a) && AllDigits(b) && AllDigits(c)
    ensures Count(a + "_" + b + "_" + c, '_') == 2
    ensures forall i :: 0 <= i < |a + "_" + b + "_" + c| ==>
      (a + "_" + b + "_" + c)[i] == '_' || IsDigit((a + "_" + b + "_" + c)[i])
  {
    DigitsHaveNoSeparator(a);
    DigitsHaveNoSeparator(b);
    DigitsHaveNoSeparator(c);
    CountAbsent(a, '_');
    CountAbsent(b, '_');
    CountAbsent(c, '_');
    CountConcat(a, "_", '_');
    CountConcat(a + "_", b, '_');
    CountConcat(a + "_" + b, "_", '_');
    CountConcat(a + "_" + b + "_", c, '_');
  }

  lemma DigitsHaveNoSeparator(s: string)
    requires AllDigits(s)
    ensures '_' !in s
  {
  }

  /** `ObtenerFila`: the second '_'-separated field, parsed.  A name without
      a separator has no such field (`partes[1]` throws); a field that is not
      a numeral makes `int.Parse` throw. */
  function ObtenerFila(name: string): (r: Result<nat>)
    ensures r == Failure(MissingField(1)) <==> Count(name, '_') < 1
    ensures 2 <= |Split(name, '_')| ==>
      var field := Split(name, '_')[1];
      && (r.Success? <==> 1 <= |field| && AllDigits(field))
      && (r.Success? ==> r.value == DigitsValue(field))
      && (r.Failure? ==> r.error == NotANumber(field))
  {
    SplitCount(name, '_');
    var partes := Split(name, '_');
    if |partes| < 2 then Failure(MissingField(1)) else ParseInt(partes[1])
  }

  /** `ObtenerColumna`: the third '_'-separated field, parsed.  A name with
      fewer than two separators has no such field (`partes[2]` throws); a
      field that is not a numeral makes `int.Parse` throw. */
  function ObtenerColumna(name: string): (r: Result<nat>)
    ensures r == Failure(MissingField(2)) <==> Count(name, '_') < 2
    ensures 3 <= |Split(name, '_')| ==>
      var field := Split(name, '_')[2];
      && (r.Success? <==> 1 <= |field| && AllDigits(field))
      && (r.Success? ==> r.value == DigitsValue(field))
      && (r.Failure? ==> r.error == NotANumber(field))
  {
    SplitCount(name, '_');
    var partes := Split(name, '_');
    if |partes| < 3 then Failure(MissingField(2)) else ParseInt(partes[2])
  }

  lemma NoUnderscoreInNumeral(k: nat)
    ensures '_' !in Show(k)
  {
    DigitsHaveNoSeparator(Show(k));
  }

  /** A name splits into exactly its three numerals. */
  lemma SplitName(n: nat, t: Tile)
    ensures Split(Name(n, t), '_') == [Show(Index(n, t)), Show(t.row), Show(t.col)]
  {
    var i, r, c := Show(Index(n, t)), Show(t.row), Show(t.col);
    NoUnderscoreInNumeral(Index(n, t));
    NoUnderscoreInNumeral(t.row);
    NoUnderscoreInNumeral(t.col);
    assert Name(n, t) == i + ['_'] + (r + ['_'] + c);
    SplitFirst(i, '_', r + ['_'] + c);
    SplitFirst(r, '_', c);
    SplitNoSeparator(c, '_');
  }

  /** Decoding a name built at creation gives back the row and column it was
      built from. */
  lemma NameRoundTrip(n: nat, t: Tile)
    ensures ObtenerFila(Name(n, t)) == Success(t.row)
    ensures ObtenerColumna(Name(n, t)) == Success(t.col)
  {
    SplitName(n, t);
    ParseShow(t.row);
    ParseShow(t.col);
  }

  /** No two pieces share a name. */
  lemma NamesDistinct(n: nat, t1: Tile, t2: Tile)
    requires t1 != t2
    ensures Name(n, t1) != Name(n, t2)
  {
    NameRoundTrip(n, t1);
    NameRoundTrip(n, t2);
  }

  /** The index in a piece's name lies in [0, size*size) and already tells
      pieces apart. */
  lemma IndexBounds(n: nat, t1: Tile, t2: Tile)
    requires ValidTile(n, t1) && ValidTile(n, t2)
    ensures Index(n, t1) < n * n
    ensures Index(n, t1) == Index(n, t2) <==> t1 == t2
  {
    IndexBelowNextRow(n, t1);
    MulMonotone(t1.row + 1, n, n);
    if t1.row < t2.row {
      MulMonotone(t1.row + 1, t2.row, n);
    } else if t2.row < t1.row {
      IndexBelowNextRow(n, t2);
      MulMonotone(t2.row + 1, t1.row, n);
    }
  }

  /** A piece's index lies before the first index of the next row. */
  lemma IndexBelowNextRow(n: nat, t: Tile)
    requires ValidTile(n, t)
    ensures t.row * n <= Index(n, t) < (t.row + 1) * n
  {
  }

  lemma MulMonotone(a: nat, b: nat, n: nat)
    requires a <= b
    ensures a * n <= b * n
  {
  }

  /** The creation cell a well-formed name encodes. */
  function NamedCell(name: string): Cell
    requires ObtenerFila(name).Success? && ObtenerColumna(name).Success?
  {
    Cell(ObtenerFila(name).value, ObtenerColumna(name).value)
  }

  /** The name of some piece of an n x n board. */
  predicate IsPieceName(n: nat, name: string) {
    && ObtenerFila(name).Success?
    && ObtenerColumna(name).Success?
    && InRange(n, NamedCell(name))
    && name == Name(n, Tile(NamedCell(name).row, NamedCell(name).col))
  }

  /** Every piece's name is a piece name, and it decodes to the piece's own
      creation cell. */
  lemma PieceNameOf(n: nat, t: Tile)
    requires ValidTile(n, t)
    ensures IsPieceName(n, Name(n, t)) && NamedCell(Name(n, t)) == Home(t)
  {
    NameRoundTrip(n, t);
  }

  /** Different piece names address different cells. */
  lemma NamedCellsDistinct(n: nat, x: string, y: string)
    requires IsPieceName(n, x) && IsPieceName(n, y)
    ensures NamedCell(x) == NamedCell(y) <==> x == y
  {
  }
}
