/** Shared vocabulary for the widget and player models: an optional value,
    integer helpers that mirror C++ arithmetic, and Qt's integer rectangle
    and point types.
 */
module Common {

  /** A value that may be absent: a null pointer, an unset date, a missing
      screen. */
  datatype Option<+T> = None | Some(value: T) {
    function GetOr(default: T): T {
      match this
      case Some(v) => v
      case None => default
    }
  }

  /** Largest value of C++'s `int64_t`, used by the player as an end marker. */
  const Int64Max: int := 0x7fff_ffff_ffff_ffff

  function Min(a: int, b: int): (m: int)
    ensures m <= a && m <= b
    ensures m == a || m == b
  {
    if a <= b then a else b
  }

  function Max(a: int, b: int): (m: int)
    ensures m >= a && m >= b
    ensures m == a || m == b
  {
    if a >= b then a else b
  }

  function Abs(a: int): (m: nat)
    ensures m == a || m == -a
  {
    if a < 0 then -a else a
  }

  /** `qMin(hi, qMax(lo, x))`: the clamp as the widgets write it, which
      favours `hi` when the bounds cross. */
  function ClampMax(x: int, lo: int, hi: int): (r: int)
    ensures r <= hi
    ensures lo <= hi ==> lo <= r
    ensures lo <= x <= hi ==> r == x
  {
    Min(hi, Max(lo, x))
  }

  /** C++ integer division by a positive divisor, which truncates toward
      zero (Dafny's `/` is Euclidean and rounds negative dividends down). */
  function TruncDiv(a: int, b: int): (q: int)
    requires b > 0
    ensures a >= 0 ==> q == a / b
    ensures a <= 0 ==> q == -((-a) / b)
    ensures -b < a < b ==> q == 0
  {
    if a >= 0 then a / b else -((-a) / b)
  }

  /** C++ `%` by a positive divisor: the remainder takes the sign of the
      dividend. */
  function TruncMod(a: int, b: int): (r: int)
    requires b > 0
    ensures a >= 0 ==> r == a % b
    ensures a <= 0 ==> r == -((-a) % b)
    ensures a == TruncDiv(a, b) * b + r
  {
    if a >= 0 then a % b else -((-a) % b)
  }

  /** Euclidean division of a non-negative number brackets it between
      two multiples of the divisor. */
  lemma DivBounds(a: int, b: int)
    requires a >= 0 && b > 0
    ensures 0 <= a / b && b * (a / b) <= a < b * (a / b + 1)
    ensures a < 2 * b ==> a / b <= 1
  {
  }

  /** Concatenation regroups freely. */
  lemma AppendAssoc<T>(a: seq<T>, b: seq<T>, c: seq<T>)
    ensures a + b + c == a + (b + c)
  {
  }

  /** The first position of `x` in `s`, or -1: `QList::indexOf` and
      `QString::indexOf`. */
  function IndexOf<T(==)>(s: seq<T>, x: T): (i: int)
    ensures -1 <= i < |s|
    ensures i >= 0 ==> s[i] == x && x !in s[..i]
    ensures i >= 0 ==> forall j :: 0 <= j < i ==> s[j] != x
    ensures i == -1 <==> x !in s
  {
    if s == [] then -1
    else if s[0] == x then 0
    else
      var j := IndexOf(s[1..], x);
      if j == -1 then -1
      else
        assert s[..j + 1] == [s[0]] + s[1..][..j];
        j + 1
  }

  /** A QImage; the pixels themselves are not modelled, only whether the
      image is null and which picture it is. */
  datatype Image = NullImage | Picture(id: nat) {
    predicate IsNull() { NullImage? }
  }

  /** A QPoint. */
  datatype Point = Point(x: int, y: int)

  /** A QSize. */
  datatype Size = Size(w: int, h: int)

  /** A QRect with Qt's inclusive edges: `right = left + width - 1`. */
  datatype Rect = Rect(left: int, top: int, right: int, bottom: int) {
    function Width(): int { right - left + 1 }
    function Height(): int { bottom - top + 1 }
    /** `QRect::isNull`: zero width and zero height. */
    predicate IsNull() { Width() == 0 && Height() == 0 }
    /** `QRect::isValid`: positive width and height. */
    predicate IsValid() { left <= right && top <= bottom }
    predicate Contains(p: Point) { left <= p.x <= right && top <= p.y <= bottom }
    function TopLeft(): Point { Point(left, top) }
    function Extent(): Size { Size(Width(), Height()) }

    /** `QRect::translated`. */
    function Translated(dx: int, dy: int): (r: Rect)
      ensures r.Extent() == Extent()
      ensures r.left == left + dx && r.top == top + dy
    {
      Rect(left + dx, top + dy, right + dx, bottom + dy)
    }
    /** `QRect::moveLeft`, `moveRight`, `moveTop`, `moveBottom` keep the size. */
    function MoveLeft(x: int): (r: Rect)
      ensures r.Extent() == Extent() && r.left == x && r.top == top && r.bottom == bottom
    {
      Rect(x, top, x + right - left, bottom)
    }
    function MoveRight(x: int): (r: Rect)
      ensures r.Extent() == Extent() && r.right == x && r.top == top && r.bottom == bottom
    {
      Rect(x - (right - left), top, x, bottom)
    }
    function MoveTop(y: int): (r: Rect)
      ensures r.Extent() == Extent() && r.top == y && r.left == left && r.right == right
    {
      Rect(left, y, right, y + bottom - top)
    }
    function MoveBottom(y: int): (r: Rect)
      ensures r.Extent() == Extent() && r.bottom == y && r.left == left && r.right == right
    {
      Rect(left, y - (bottom - top), right, y)
    }
  }

  /** The ends of one side of a rectangle, smaller first, as Qt takes them
      when the width or height is negative. */
  function Span(a1: int, a2: int): (s: (int, int))
    ensures s.0 <= s.1 || a2 - a1 + 1 == 0
    ensures s == (a1, a2) || s == (a2, a1)
  {
    if a2 - a1 + 1 < 0 then (a2, a1) else (a1, a2)
  }

  /** `QRect::contains` for a point: the point lies within the
      rectangle's normalised spans on both axes. */
  function RectContains(r: Rect, p: Point): (b: bool)
    ensures r.IsValid() ==> (b <==> r.Contains(p))
    ensures r.Width() == 0 || r.Height() == 0 ==> !b
  {
    var (l, rr) := Span(r.left, r.right);
    var (t, bb) := Span(r.top, r.bottom);
    l <= p.x <= rr && t <= p.y <= bb
  }

  /** `QRect(x, y, w, h)`. */
  function RectXYWH(x: int, y: int, w: int, h: int): (r: Rect)
    ensures r.left == x && r.top == y && r.Width() == w && r.Height() == h
  {
    Rect(x, y, x + w - 1, y + h - 1)
  }

  /** The default-constructed `QRect()`, which is null. */
  const NullRect: Rect := Rect(0, 0, -1, -1)

  // ---------------------------------------------------------------------
  // Decimal text
  // ---------------------------------------------------------------------

  function DigitChar(d: int): char
    requires 0 <= d < 10
  {
    "0123456789"[d]
  }

  /** `QString::number` of a non-negative integer. */
  function NatToString(n: nat): (s: string)
    ensures |s| >= 1
    ensures forall i :: 0 <= i < |s| ==> '0' <= s[i] <= '9'
  {
    if n < 10 then [DigitChar(n)] else NatToString(n / 10) + [DigitChar(n % 10)]
  }

  /** The value of a string of decimal digits. */
  function DecimalValue(s: string): nat
    requires forall i :: 0 <= i < |s| ==> '0' <= s[i] <= '9'
  {
    if s == [] then 0 else 10 * DecimalValue(s[..|s| - 1]) + (s[|s| - 1] as int - '0' as int)
  }

  /** Reading the digits back gives the number printed. */
  lemma {:induction false} DecimalRoundTrip(n: nat)
    ensures DecimalValue(NatToString(n)) == n
  {
    var s := NatToString(n);
    if n >= 10 {
      DecimalRoundTrip(n / 10);
      assert s[..|s| - 1] == NatToString(n / 10);
      DigitValue(n % 10);
      assert s[|s| - 1] == DigitChar(n % 10);
      assert n == 10 * (n / 10) + n % 10;
    } else {
      DigitValue(n);
      assert s == [DigitChar(n)];
      assert s[..0] == [];
    }
  }

  lemma DigitValue(d: int)
    requires 0 <= d < 10
    ensures DigitChar(d) as int - '0' as int == d
  {
  }

  /** `QString::number` of any integer: a minus sign before the
      magnitude. */
  function IntToString(n: int): string {
    if n < 0 then "-" + NatToString(-n) else NatToString(n)
  }
}
