/**
 * The script overlay: an ordered list of drawable items with a visibility
 * flag, and the drawing commands each item issues when it is rendered.
 * Rendering is modelled as the trace of commands sent to the painter.
 */
module ScriptOverlay {
  import opened Wrappers
  import opened ImagePipeline

  /**
   * A colour built from a script's colour string (QColor(QString)); how the
   * string is parsed is not modelled, so a colour is its string.
   */
  datatype Color = Color(name: string)

  /** The three kinds of overlay item. Items are never changed once built. */
  datatype Item =
    | TextItem(x: int, y: int, text: string, color: Color, fontSize: int)
    | RectItem(x: int, y: int, width: int, height: int, color: Color, filled: bool)
    | ImageItem(x: int, y: int, image: Image)

  /** The painter calls an item's `render` makes. */
  datatype Command =
    | SetFontPixelSize(size: int)
    | SetPen(color: Color)
    | DrawText(x: int, y: int, text: string)
    | FillRect(x: int, y: int, width: int, height: int, color: Color)
    | DrawRect(x: int, y: int, width: int, height: int)
    | DrawImage(x: int, y: int, image: Image)

  /** A call that puts pixels on the canvas, as opposed to one that sets painter state. */
  predicate IsDraw(c: Command)
  {
    c.DrawText? || c.FillRect? || c.DrawRect? || c.DrawImage?
  }

  /**
   * OverlayText/OverlayRect/OverlayImage::render: every item issues exactly
   * one drawing call, as its last command, preceded only by state setters.
   */
  function RenderItem(item: Item): (cmds: seq<Command>)
    ensures 0 < |cmds| <= 3 && IsDraw(cmds[|cmds| - 1])
    ensures forall k :: 0 <= k < |cmds| - 1 ==> !IsDraw(cmds[k])
  {
    match item
    case TextItem(x, y, text, color, fontSize) =>
      [SetFontPixelSize(fontSize), SetPen(color), DrawText(x, y, text)]
    case RectItem(x, y, width, height, color, filled) =>
      if filled then [FillRect(x, y, width, height, color)]
      else [SetPen(color), DrawRect(x, y, width, height)]
    case ImageItem(x, y, image) =>
      [DrawImage(x, y, image)]
  }

  /**
   * The commands of every item in list order (the loop of renderItems):
   * nothing for no items, between one and three commands per item, and a
   * non-empty trace always ends with a drawing call.
   */
  function RenderAll(items: seq<Item>): (trace: seq<Command>)
    ensures trace == [] <==> items == []
    ensures |items| <= |trace| <= 3 * |items|
    ensures trace != [] ==> IsDraw(trace[|trace| - 1])
  {
    if items == [] then [] else RenderItem(items[0]) + RenderAll(items[1..])
  }

  lemma {:induction false} RenderAllAppend(items: seq<Item>, item: Item)
    ensures RenderAll(items + [item]) == RenderAll(items) + RenderItem(item)
  {
    if items != [] {
      assert (items + [item])[1..] == items[1..] + [item];
      RenderAllAppend(items[1..], item);
    } else {
      assert RenderAll([item]) == RenderItem(item) + RenderAll([]);
    }
  }

  /** The number of drawing calls in a trace. */
  function DrawCount(trace: seq<Command>): nat
  {
    if trace == [] then 0 else (if IsDraw(trace[0]) then 1 else 0) + DrawCount(trace[1..])
  }

  lemma {:induction false} DrawCountConcat(a: seq<Command>, b: seq<Command>)
    ensures DrawCount(a + b) == DrawCount(a) + DrawCount(b)
  {
    if a != [] {
      assert (a + b)[1..] == a[1..] + b;
      DrawCountConcat(a[1..], b);
    } else {
      assert a + b == b;
    }
  }

  /** A command list whose only drawing call is its last one holds one drawing call. */
  lemma {:induction false} DrawCountOfSingleDraw(cmds: seq<Command>)
    requires |cmds| > 0 && IsDraw(cmds[|cmds| - 1])
    requires forall k :: 0 <= k < |cmds| - 1 ==> !IsDraw(cmds[k])
    ensures DrawCount(cmds) == 1
  {
    if |cmds| == 1 {
      assert cmds[1..] == [];
    } else {
      DrawCountOfSingleDraw(cmds[1..]);
    }
  }

  /** Rendering a list issues exactly one drawing call per item. */
  lemma {:induction false} DrawCountIsItemCount(items: seq<Item>)
    ensures DrawCount(RenderAll(items)) == |items|
  {
    if items != [] {
      DrawCountConcat(RenderItem(items[0]), RenderAll(items[1..]));
      DrawCountOfSingleDraw(RenderItem(items[0]));
      DrawCountIsItemCount(items[1..]);
    }
  }

  /** Prefixes one item to a decoded list, keeping a failed decoding failed. */
  function Prepend(item: Item, rest: Option<seq<Item>>): Option<seq<Item>>
  {
    match rest
    case None => None
    case Some(items) => Some([item] + items)
  }

  /**
   * Reads a command trace back as the list of items that issued it, or None
   * when the trace is not one that rendering items produces.
   */
  function Decode(trace: seq<Command>): Option<seq<Item>>
    decreases |trace|
  {
    if trace == [] then Some([])
    else match trace[0]
      case DrawImage(x, y, image) =>
        Prepend(ImageItem(x, y, image), Decode(trace[1..]))
      case FillRect(x, y, width, height, color) =>
        Prepend(RectItem(x, y, width, height, color, true), Decode(trace[1..]))
      case SetPen(color) =>
        if |trace| >= 2 && trace[1].DrawRect? then
          var d := trace[1];
          Prepend(RectItem(d.x, d.y, d.width, d.height, color, false), Decode(trace[2..]))
        else None
      case SetFontPixelSize(size) =>
        if |trace| >= 3 && trace[1].SetPen? && trace[2].DrawText? then
          var d := trace[2];
          Prepend(TextItem(d.x, d.y, d.text, trace[1].color, size), Decode(trace[3..]))
        else None
      case _ => None
  }

  /**
   * Rendering loses nothing and invents nothing: the trace of a list of
   * items determines that list, each item once and in list order.
   */
  lemma {:induction false} DecodeRenderAll(items: seq<Item>)
    ensures Decode(RenderAll(items)) == Some(items)
  {
    if items != [] {
      var cmds := RenderItem(items[0]);
      var rest := RenderAll(items[1..]);
      var trace := cmds + rest;
      assert RenderAll(items) == trace;
      DecodeRenderAll(items[1..]);
      assert trace[|cmds|..] == rest;
      assert [items[0]] + items[1..] == items;
    }
  }

  /** The script overlay of one map view. */
  class Overlay {
    /** The items in insertion order, which is also paint order. */
    var items: seq<Item>
    var hidden: bool

    /** A new overlay is empty and visible. */
    constructor ()
      ensures items == [] && !hidden
    {
      items := [];
      hidden := false;
    }

    /**
     * Overlay::renderItems: nothing at all while hidden; otherwise every
     * item's commands, item by item in list order. The list is not changed.
     */
    method RenderItems() returns (trace: seq<Command>)
      ensures hidden ==> trace == []
      ensures !hidden ==> trace == RenderAll(items)
    {
      trace := [];
      if hidden {
        return;
      }
      var i := 0;
      while i < |items|
        invariant 0 <= i <= |items|
        invariant trace == RenderAll(items[..i])
      {
        RenderAllAppend(items[..i], items[i]);
        assert items[..i + 1] == items[..i] + [items[i]];
        trace := trace + RenderItem(items[i]);
        i := i + 1;
      }
      assert items[..i] == items;
    }

    /**
     * Overlay::clearItems: every item is released once, in list order, and
     * the list is left empty. On an empty overlay nothing is released.
     */
    method ClearItems() returns (released: seq<Item>)
      modifies this`items
      ensures released == old(items)
      ensures items == []
    {
      released := [];
      var i := 0;
      while i < |items|
        invariant 0 <= i <= |items|
        invariant released == items[..i]
      {
        released := released + [items[i]];
        i := i + 1;
      }
      assert items[..i] == items;
      items := [];
    }

    /** Overlay::getItems: the current list, in order; nothing changes. */
    method GetItems() returns (r: seq<Item>)
      ensures r == items
    {
      r := items;
    }

    /** Overlay::setHidden: only the flag changes. */
    method SetHidden(hidden: bool)
      modifies this`hidden
      ensures this.hidden == hidden
    {
      this.hidden := hidden;
    }

    /** Overlay::addText: always appends one text item at the end. */
    method AddText(text: string, x: int, y: int, color: string, fontSize: int)
      modifies this`items
      ensures items == old(items) + [TextItem(x, y, text, Color(color), fontSize)]
    {
      items := items + [TextItem(x, y, text, Color(color), fontSize)];
    }

    /** Overlay::addRect: always appends one rectangle item at the end. */
    method AddRect(x: int, y: int, width: int, height: int, color: string, filled: bool)
      modifies this`items
      ensures items == old(items) + [RectItem(x, y, width, height, Color(color), filled)]
    {
      items := items + [RectItem(x, y, width, height, Color(color), filled)];
    }

    /**
     * Overlay::addImage with a file path. `loaded` is what the image loader
     * returned for the path (None for a null image) and `pad` the value
     * QImage::copy gives to pixels outside the source. On success exactly
     * one image item, the pipeline's result, is appended at (x, y); on
     * failure the list is unchanged.
     */
    method AddImage(x: int, y: int, loaded: Option<Image>, width: Int32, height: Int32, offset: UInt32,
                    xflip: bool, yflip: bool, palette: seq<Rgb>, setTransparency: bool, pad: Pixel)
      returns (ok: bool)
      requires loaded.Some? ==> loaded.value.Valid()
      modifies this`items
      ensures var r := Pipeline(loaded, width, height, offset, xflip, yflip, palette, setTransparency, pad);
              && ok == r.Ok?
              && items == if ok then old(items) + [ImageItem(x, y, r.value)] else old(items)
    {
      if loaded.None? {
        // "Failed to load image"
        return false;
      }
      var image := loaded.value;
      var fullWidth, fullHeight := image.width, image.height;
      var w := Resolve(width, fullWidth);
      var h := Resolve(height, fullHeight);
      if !InBounds(w, h, offset, fullWidth, fullHeight) {
        // "<w>x<h> image starting at offset <offset> exceeds the image size"
        return false;
      }
      if w != fullWidth || h != fullHeight {
        var (col, row) := Origin(offset, fullWidth);
        image := Copy(image, col, row, w, h, pad);
      }
      if xflip || yflip {
        image := Mirror(image, xflip, yflip);
      }
      image := ApplyPalette(image, palette);
      if setTransparency {
        image := SetColor(image, 0, Transparent);
      }
      items := items + [ImageItem(x, y, image)];
      ok := true;
    }

    /**
     * Overlay::addImage with an image the script already has: a null image
     * is refused with the list unchanged; any other is appended as it is.
     */
    method AddCustomImage(x: int, y: int, image: Option<Image>) returns (ok: bool)
      modifies this`items
      ensures ok == image.Some?
      ensures items == if ok then old(items) + [ImageItem(x, y, image.value)] else old(items)
    {
      if image.None? {
        // "Failed to load custom image"
        return false;
      }
      items := items + [ImageItem(x, y, image.value)];
      ok := true;
    }
  }

  /** Hiding an overlay silences it whatever it holds. */
  method HiddenRendersNothing(overlay: Overlay) returns (trace: seq<Command>)
    modifies overlay`hidden
    ensures trace == []
  {
    overlay.SetHidden(true);
    trace := overlay.RenderItems();
  }
}
