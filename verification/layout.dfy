/** The page layout of `build_pdf` (abcd.py:124-250) with ReportLab taken out: the
    address cell, the cells of the photo grid, the filler cells that square it off, its
    rows of three, the row-height preset and the 4:3 box every photo is drawn in. */
module Layout {
  import opened Text
  import opened Outcome
  import opened Normalize

  /** `col_count` (line 161). */
  const Columns: nat := 3

  /** At most this many entries are laid out (lines 166, 176). */
  const MaxItems: nat := 9

  /** The placeholder text of an entry without a photo (line 209). */
  const NoPhotoText: string := "(사진 없음)"

  /** The body and caption of a filler cell (lines 225-226). */
  const FillerText: string := "(빈 칸)"
  const FillerCaption: string := "-"

  /** The address cell's text when the address is blank (line 144). */
  const NoAddress: string := "-"

  /** A photo as the form hands it over: absent, or a decoded picture of some size. */
  datatype Attachment = Absent | Attached(size: Size)

  /** One entry of `items`: its resolved caption and its photo. */
  datatype Item = Item(caption: string, photo: Attachment)

  /** A cell of the grid: a photo with its caption, the "(사진 없음)" placeholder with
      its caption, or a filler that keeps the last row three wide. */
  datatype Cell = ImageCell(caption: string, pixels: Size) | NoPhoto(caption: string) | Filler

  /** A width and height in PDF points. */
  datatype Box = Box(w: real, h: real)

  /** What the layout decides: title, address text, the row height, the box each photo
      is drawn in, and the grid's rows. */
  datatype Document = Document(title: string, address: string, rowHeight: int, imageBox: Box,
                               grid: seq<seq<Cell>>)

  /** The text under a cell: the entry's caption, or "-" under a filler. */
  function Caption(c: Cell): (r: string)
    ensures c.Filler? ==> r == FillerCaption
    ensures c.ImageCell? || c.NoPhoto? ==> r == c.caption
  {
    match c
    case ImageCell(caption, _) => caption
    case NoPhoto(caption) => caption
    case Filler => FillerCaption
  }

  /** What a cell draws above its caption: the placeholder of an entry without a photo
      (line 209) or the filler text (line 225); a photo cell draws its picture there and
      no text. */
  function UpperText(c: Cell): (r: string)
    ensures r == [] <==> c.ImageCell?
    ensures c.NoPhoto? ==> r == NoPhotoText
    ensures c.Filler? ==> r == FillerText
  {
    match c
    case ImageCell(_, _) => []
    case NoPhoto(_) => NoPhotoText
    case Filler => FillerText
  }

  /** `min(len(items), 9)`. */
  function Capped(n: nat): (r: nat)
    ensures r <= n && r <= MaxItems
    ensures r == n || r == MaxItems
  {
    if n < MaxItems then n else MaxItems
  }

  /** `ceil(n / 3)`. */
  function RowsFor(n: nat): (r: nat)
    ensures Columns * (r - 1) < n <= Columns * r
    ensures n == 0 ==> r == 0
  {
    (n + Columns - 1) / Columns
  }

  /** The address cell, `site_addr.strip() or "-"`: the trimmed address, or a dash when
      the address is blank. */
  function AddressText(address: string): (r: string)
    ensures r != []
    ensures IsBlank(address) ==> r == NoAddress
    ensures !IsBlank(address) ==> exists a :: StripsTo(address, Whitespace, a, r)
  {
    TrimEmptyIffBlank(address);
    var t := Trim(address);
    if t == [] then NoAddress else t
  }

  /** Line 169: the row-height preset chosen by the number of grid rows. Fewer rows
      never get a lower row, and the grid of at most three rows stays within 600 points,
      leaving the rest of the A4 frame for the title and the address table. */
  function RowHeight(rows: nat): (r: int)
    ensures 200 <= r <= 260
    ensures rows <= 3 ==> rows * r <= 600
  {
    if rows >= 3 then 200 else if rows == 2 then 230 else 260
  }

  /** More rows never get taller rows. */
  lemma RowHeightMonotone(fewer: nat, more: nat)
    requires fewer <= more
    ensures RowHeight(more) <= RowHeight(fewer)
  {
  }

  /** `CAPTION_HEIGHT` and the 8 points taken off the image area (lines 170-172). */
  const CaptionHeight: int := 22
  const ImageInset: int := 8

  /** A4 in points, as ReportLab defines it: 210 mm by 297 mm at 72 points per inch. */
  const PageWidth: real := 210.0 * 72.0 / 25.4
  const PageHeight: real := 297.0 * 72.0 / 25.4

  /** `LEFT_RIGHT_MARGIN` and `TOP_BOTTOM_MARGIN` (lines 127-128). */
  const Margin: real := 20.0

  /** `col_width` (lines 162-163). */
  const ColumnWidth: real := (PageWidth - 2.0 * Margin) / Columns as real

  /** `IMAGE_MAX_W` (line 172). */
  const ImageMaxWidth: real := ColumnWidth - ImageInset as real

  /** The grid of the most entries the layout takes, three rows, fits in the A4 frame
      between the top and bottom margins with 200 points to spare for the title and
      the address table: the one-page aim of the row presets (line 160). */
  lemma GridFitsFrame(rows: nat)
    requires rows <= 3
    ensures (rows * RowHeight(rows)) as real + 200.0 < PageHeight - 2.0 * Margin
  {
  }

  /** `IMAGE_MAX_H` (line 171). */
  function ImageMaxHeight(rowHeight: int): int
  {
    rowHeight - CaptionHeight - ImageInset
  }

  /** Lines 183-187: the largest 4:3 box within `maxW` by `maxH`. It is exactly 4:3, fits
      inside the area, and touches it on at least one side. */
  function FitBox(maxW: real, maxH: real): (r: Box)
    ensures r.w * 3.0 == r.h * 4.0
    ensures r.w <= maxW && r.h <= maxH
    ensures r.w == maxW || r.h == maxH
  {
    var h := maxW * 3.0 / 4.0;
    if h > maxH then Box(maxH * 4.0 / 3.0, maxH) else Box(maxW, h)
  }

  /** No 4:3 box that fits the area is wider than the one `FitBox` picks. */
  lemma FitBoxIsLargest(maxW: real, maxH: real, b: Box)
    requires b.w * 3.0 == b.h * 4.0 && b.w <= maxW && b.h <= maxH
    ensures b.w <= FitBox(maxW, maxH).w && b.h <= FitBox(maxW, maxH).h
  {
  }

  /** On A4 the column width is what limits a photo, whatever the row preset: every
      photo box is the full image width, 3/4 of it high. */
  lemma PhotoBoxSpansColumn(rows: nat)
    ensures FitBox(ImageMaxWidth, ImageMaxHeight(RowHeight(rows)) as real)
              == Box(ImageMaxWidth, ImageMaxWidth * 3.0 / 4.0)
  {
  }

  /** `c` is the cell an item becomes (lines 177-218): the placeholder with the item's
      caption, or the item's picture, padded and capped by `Prepare`, with its caption.
      No cell renders a picture that `Prepare` rejects. */
  predicate Renders(item: Item, c: Cell)
  {
    match item.photo
    case Absent => c == NoPhoto(item.caption)
    case Attached(s) => Prepare(s).Ok? && c == ImageCell(item.caption, Prepare(s).value)
  }

  /** A rendered cell carries its item's caption, and a photo exactly when the item has
      one. */
  lemma RenderedCaption(item: Item, c: Cell)
    requires Renders(item, c)
    ensures Caption(c) == item.caption && c != Filler
    ensures c.ImageCell? <==> item.photo.Attached?
  {
  }

  /** An item whose photo cannot be prepared. */
  predicate Broken(item: Item)
  {
    item.photo.Attached? && item.photo.size.h == 0
  }

  /** The loop of lines 176-219: one cell per item among the first nine, in order; an
      item without a photo becomes the placeholder with the same caption. A picture of
      zero height among them stops the whole layout with the division error. */
  method ComposeCells(items: seq<Item>) returns (r: Result<seq<Cell>>)
    ensures r.Err? <==> exists i :: 0 <= i < Capped(|items|) && Broken(items[i])
    ensures r.Ok? ==> |r.value| == Capped(|items|)
    ensures r.Ok? ==> forall i :: 0 <= i < |r.value| ==> Renders(items[i], r.value[i])
  {
    var n := Capped(|items|);
    var cells: seq<Cell> := [];
    var i := 0;
    while i < n
      invariant 0 <= i <= n && |cells| == i
      invariant forall k :: 0 <= k < i ==> !Broken(items[k]) && Renders(items[k], cells[k])
    {
      var item := items[i];
      match item.photo {
        case Absent =>
          cells := cells + [NoPhoto(item.caption)];
        case Attached(s) =>
          var prepared := Prepare(s);
          if prepared.Err? {
            return Err(prepared.error);
          }
          cells := cells + [ImageCell(item.caption, prepared.value)];
      }
      i := i + 1;
    }
    return Ok(cells);
  }

  /** How many fillers make `n` cells a multiple of three. */
  function FillersNeeded(n: nat): (r: nat)
    ensures r < Columns && (n + r) % Columns == 0
  {
    (Columns - n % Columns) % Columns
  }

  /** The loop of lines 222-230: fillers are appended until the cell count is a multiple
      of three. The cells already there are untouched, at most two fillers are added,
      and the count reaches `3 * ceil(n / 3)`. */
  method PadWithFillers(cells: seq<Cell>) returns (r: seq<Cell>)
    ensures |r| % Columns == 0 && |cells| <= |r| < |cells| + Columns
    ensures |r| == Columns * RowsFor(|cells|)
    ensures r[..|cells|] == cells
    ensures forall k :: |cells| <= k < |r| ==> r[k] == Filler
  {
    r := cells;
    while |r| % Columns != 0
      invariant |cells| <= |r| <= |cells| + FillersNeeded(|cells|)
      invariant r[..|cells|] == cells
      invariant forall k :: |cells| <= k < |r| ==> r[k] == Filler
      decreases |cells| + FillersNeeded(|cells|) - |r|
    {
      r := r + [Filler];
    }
  }

  /** Line 233: the cells cut into consecutive rows of three. */
  function Rows(cells: seq<Cell>): (r: seq<seq<Cell>>)
    ensures |r| == |cells| / Columns
    ensures forall i :: 0 <= i < |r| ==> |r[i]| == Columns
  {
    seq(|cells| / Columns, i requires 0 <= i < |cells| / Columns => cells[Columns * i..Columns * i + Columns])
  }

  /** The rows read left to right, top to bottom. */
  function Flatten(rows: seq<seq<Cell>>): seq<Cell>
  {
    if rows == [] then [] else rows[0] + Flatten(rows[1..])
  }

  /** Row `i` of the cells is row `i - 1` of the cells after the first row. */
  lemma RowOfTail(cells: seq<Cell>, i: nat)
    requires 1 <= i && Columns * i + Columns <= |cells|
    ensures cells[Columns * i..Columns * i + Columns] == cells[Columns..][Columns * (i - 1)..Columns * (i - 1) + Columns]
  {
    var rest := cells[Columns..];
    var row, shifted := cells[Columns * i..Columns * i + Columns], rest[Columns * (i - 1)..Columns * (i - 1) + Columns];
    forall k | 0 <= k < Columns ensures row[k] == shifted[k] {
      assert rest[Columns * (i - 1) + k] == cells[Columns * i + k];
    }
  }

  /** Reading the rows back in order gives the cells: slicing loses and reorders nothing. */
  lemma {:induction false} FlattenRows(cells: seq<Cell>)
    requires |cells| % Columns == 0
    ensures Flatten(Rows(cells)) == cells
    decreases |cells|
  {
    if cells != [] {
      var rest := cells[Columns..];
      var rows, later := Rows(cells), Rows(rest);
      forall i | 1 <= i < |rows| ensures rows[i] == later[i - 1] {
        RowOfTail(cells, i);
      }
      assert rows == [cells[..Columns]] + later;
      FlattenRows(rest);
      assert cells == cells[..Columns] + rest;
    }
  }

  /** `build_pdf(doc_title, site_addr, items)` up to the drawing: the title, the address
      text, the row preset chosen from `ceil(min(len(items), 9) / 3)`, the 4:3 photo box,
      and the grid. The grid has exactly that many rows of three cells; read in order,
      its cells are the first nine items rendered one by one, then at most two fillers.
      It fails exactly when one of those items holds a picture of zero height, or when
      there are no items at all: the grid table then has no rows, which ReportLab's
      `Table` refuses by default. */
  method BuildPdf(title: string, siteAddress: string, items: seq<Item>) returns (r: Result<Document>)
    ensures r.Err? <==> Capped(|items|) == 0 || exists i :: 0 <= i < Capped(|items|) && Broken(items[i])
    ensures Capped(|items|) == 0 ==> r == Err(EmptyTable)
    ensures r.Ok? ==> r.value.title == title && r.value.address == AddressText(siteAddress)
    ensures r.Ok? ==> |r.value.grid| == RowsFor(Capped(|items|))
    ensures r.Ok? ==> forall i :: 0 <= i < |r.value.grid| ==> |r.value.grid[i]| == Columns
    ensures r.Ok? ==> r.value.rowHeight == RowHeight(|r.value.grid|)
    ensures r.Ok? ==> r.value.imageBox == FitBox(ImageMaxWidth, ImageMaxHeight(r.value.rowHeight) as real)
    ensures r.Ok? ==>
      var cells := Flatten(r.value.grid);
      && |cells| == Columns * RowsFor(Capped(|items|))
      && (forall i :: 0 <= i < Capped(|items|) ==> Renders(items[i], cells[i]))
      && (forall k :: Capped(|items|) <= k < |cells| ==> cells[k] == Filler)
  {
    var n := Capped(|items|);
    var rowCount := RowsFor(n);
    var rowHeight := RowHeight(rowCount);
    var box := FitBox(ImageMaxWidth, ImageMaxHeight(rowHeight) as real);
    var composed := ComposeCells(items);
    if composed.Err? {
      return Err(composed.error);
    }
    var cells := PadWithFillers(composed.value);
    FlattenRows(cells);
    var grid := Rows(cells);
    if grid == [] {
      return Err(EmptyTable);
    }
    forall i | 0 <= i < n ensures Renders(items[i], cells[i]) {
      assert cells[i] == cells[..n][i] == composed.value[i];
    }
    return Ok(Document(title, AddressText(siteAddress), rowHeight, box, grid));
  }
}
