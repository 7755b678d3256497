/** The state codes of the grid and the exact colour table that translates
    them to and from RGB pixels (matrix_update.cpp:9-16, 142-215).
    The PNG file itself is read and written by png++, which is not part of
    this model: an image here is an `array2<Pixel>` already in memory. */
module Colors {

  const GREEN := 0
  const RED := 1
  const WHITE := 2
  const ORANGE := 3
  const GRAY := 4
  const CYAN := 5

  /** The number of codes the `Color` enumeration names. */
  const ColorCount := 6

  datatype Option<T> = None | Some(value: T)

  /** One 8-bit colour channel of a png++ `rgb_pixel`. */
  newtype Channel = x: int | 0 <= x < 256

  datatype Pixel = Pixel(red: Channel, green: Channel, blue: Channel)

  const Black := Pixel(0, 0, 0)

  predicate IsColor(code: int) {
    0 <= code < ColorCount
  }

  /** The colour `saveMatrix` writes for a code; any other code is black. */
  function Encode(code: int): (p: Pixel)
    ensures !IsColor(code) ==> p == Black
  {
    if code == GREEN then Pixel(121, 254, 89)
    else if code == RED then Pixel(200, 0, 0)
    else if code == WHITE then Pixel(255, 255, 255)
    else if code == ORANGE then Pixel(222, 62, 7)
    else if code == GRAY then Pixel(192, 192, 192)
    else if code == CYAN then Pixel(0, 255, 255)
    else Black
  }

  /** The code `readPng` recognises in a pixel, by exact match on all three
      channels and in the order the source tests them; `None` is an unknown
      colour. */
  function Decode(p: Pixel): (r: Option<int>)
    ensures r.Some? ==> IsColor(r.value)
  {
    if p == Pixel(192, 192, 192) then Some(GRAY)
    else if p == Pixel(121, 254, 89) then Some(GREEN)
    else if p == Pixel(200, 0, 0) then Some(RED)
    else if p == Pixel(255, 255, 255) then Some(WHITE)
    else if p == Pixel(222, 62, 7) then Some(ORANGE)
    else if p == Pixel(0, 255, 255) then Some(CYAN)
    else None
  }

  /** The cell value `readPng` leaves for a pixel: the decoded code, or the
      value the cell already held (0 from the vector's initialisation) when
      the colour is unknown. */
  function ReadPixel(p: Pixel, prior: int): (code: int)
    ensures Decode(p).None? ==> code == prior
    ensures Decode(p).Some? ==> code == Decode(p).value && Encode(code) == p
  {
    match Decode(p)
    case Some(c) => c
    case None => prior
  }

  /** Every code of the enumeration survives an encode/decode round trip. */
  lemma DecodeEncode(code: int)
    requires IsColor(code)
    ensures Decode(Encode(code)) == Some(code)
  {
  }

  /** Every recognised pixel survives a decode/encode round trip, so the
      table is a bijection between the six codes and six colours. */
  lemma EncodeDecode(p: Pixel)
    requires Decode(p).Some?
    ensures Encode(Decode(p).value) == p
  {
  }

  /** Codes outside the enumeration are written as black, and black is not
      a colour `readPng` recognises, so such a cell reads back as whatever
      the cell held before. */
  lemma UnknownCodeReadsBackAsPrior(code: int, prior: int)
    requires !IsColor(code)
    ensures Encode(code) == Black
    ensures ReadPixel(Encode(code), prior) == prior
  {
  }

  /** The pixel loop of `readPng`: a fresh height x width grid, 0 where the
      colour is unknown, the decoded code elsewhere. */
  method ReadImage(image: array2<Pixel>) returns (matrix: array2<int>)
    ensures fresh(matrix)
    ensures matrix.Length0 == image.Length0 && matrix.Length1 == image.Length1
    ensures forall i, j | 0 <= i < image.Length0 && 0 <= j < image.Length1 ::
              matrix[i, j] == ReadPixel(image[i, j], 0)
  {
    matrix := new int[image.Length0, image.Length1]((_, _) => 0);
    for i := 0 to image.Length0
      invariant forall r, c | 0 <= r < image.Length0 && 0 <= c < image.Length1 ::
                  matrix[r, c] == if r < i then ReadPixel(image[r, c], 0) else 0
    {
      for j := 0 to image.Length1
        invariant forall r, c | 0 <= r < image.Length0 && 0 <= c < image.Length1 ::
                    matrix[r, c] == if r < i || (r == i && c < j) then ReadPixel(image[r, c], 0) else 0
      {
        var code := ReadPixel(image[i, j], matrix[i, j]);
        matrix[i, j] := code;
      }
    }
  }

  /** The pixel loop of `saveMatrix`: a fresh image of the grid's shape
      holding the encoded colour of every cell. */
  method SaveImage(matrix: array2<int>) returns (image: array2<Pixel>)
    requires matrix.Length0 >= 1
    ensures fresh(image)
    ensures image.Length0 == matrix.Length0 && image.Length1 == matrix.Length1
    ensures forall i, j | 0 <= i < matrix.Length0 && 0 <= j < matrix.Length1 ::
              image[i, j] == Encode(matrix[i, j])
  {
    image := new Pixel[matrix.Length0, matrix.Length1]((_, _) => Black);
    for i := 0 to matrix.Length0
      invariant forall r, c | 0 <= r < matrix.Length0 && 0 <= c < matrix.Length1 ::
                  image[r, c] == if r < i then Encode(matrix[r, c]) else Black
    {
      for j := 0 to matrix.Length1
        invariant forall r, c | 0 <= r < matrix.Length0 && 0 <= c < matrix.Length1 ::
                    image[r, c] == if r < i || (r == i && c < j) then Encode(matrix[r, c]) else Black
      {
        image[i, j] := Encode(matrix[i, j]);
      }
    }
  }
}
