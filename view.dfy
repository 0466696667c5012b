/** The view transform of the canvas: a node at model position m is drawn at m * zoom + pan,
    and the zoom buttons and the mouse wheel change zoom and pan. */
module View {

  /** The factor of one zoom step, of the buttons and of the wheel. */
  const ZOOM_STEP: real := 11.0 / 10.0

  /** The wheel handler's factor: zoom in for a wheel turned away from the user (deltaY < 0),
      zoom out by the same step otherwise. */
  function WheelFactor(deltaY: real): (f: real)
    ensures f > 0.0
    ensures deltaY < 0.0 ==> f > 1.0
    ensures deltaY >= 0.0 ==> f < 1.0
  {
    if deltaY < 0.0 then ZOOM_STEP else 1.0 / ZOOM_STEP
  }

  /** A step in and a step out cancel. */
  lemma WheelStepsCancel(up: real, down: real)
    requires up < 0.0 <= down
    ensures WheelFactor(up) * WheelFactor(down) == 1.0
  {
  }

  /** Where drawGraph puts the model coordinate m on the screen. */
  function ToScreen(m: real, pan: real, zoom: real): (s: real)
    ensures zoom == 1.0 && pan == 0.0 ==> s == m
    ensures zoom != 0.0 ==> (s == pan <==> m == 0.0)
  {
    m * zoom + pan
  }

  /** The model coordinate under the screen coordinate s: the wheel handler's cursorX. */
  function ToModel(s: real, pan: real, zoom: real): (m: real)
    requires zoom != 0.0
    ensures ToScreen(m, pan, zoom) == s
  {
    (s - pan) / zoom
  }

  /** Screen and model coordinates are in one-to-one correspondence for a non-zero zoom. */
  lemma ScreenModelInverse(m: real, pan: real, zoom: real)
    requires zoom != 0.0
    ensures ToModel(ToScreen(m, pan, zoom), pan, zoom) == m
  {
    assert (m * zoom + pan - pan) / zoom == m * zoom / zoom;
  }

  /** The wheel handler's new pan when zoom is multiplied by factor with the cursor at mouse:
      the model point under the cursor stays under it. */
  function WheelPan(mouse: real, pan: real, zoom: real, factor: real): (p: real)
    requires zoom > 0.0 && factor > 0.0
    ensures ToModel(mouse, p, zoom * factor) == ToModel(mouse, pan, zoom)
  {
    var cursor := (mouse - pan) / zoom;
    var p := mouse - cursor * (zoom * factor);
    ScreenModelInverse(cursor, p, zoom * factor);
    p
  }

  /** A wheel step in and a wheel step out at the same cursor position give back the zoom and
      the pan exactly. */
  lemma WheelRoundTrip(mouse: real, pan: real, zoom: real)
    requires zoom > 0.0
    ensures var zoomIn := zoom * WheelFactor(-1.0);
            var panIn := WheelPan(mouse, pan, zoom, WheelFactor(-1.0));
            zoomIn * WheelFactor(1.0) == zoom && WheelPan(mouse, panIn, zoomIn, WheelFactor(1.0)) == pan
  {
    var zoomIn := zoom * WheelFactor(-1.0);
    var panIn := WheelPan(mouse, pan, zoom, WheelFactor(-1.0));
    WheelStepsCancel(-1.0, 1.0);
    assert zoomIn * WheelFactor(1.0) == zoom;
    var panOut := WheelPan(mouse, panIn, zoomIn, WheelFactor(1.0));
    var m := ToModel(mouse, pan, zoom);
    assert ToModel(mouse, panOut, zoom) == m;
    assert mouse == m * zoom + panOut && mouse == m * zoom + pan;
  }

  class View {
    var zoom: real
    var panX: real
    var panY: real
    /** Set once the user has zoomed or panned by hand. */
    var manualTransform: bool

    ghost predicate Valid()
      reads this
    {
      zoom > 0.0
    }

    constructor ()
      ensures Valid()
      ensures zoom == 1.0 && panX == 0.0 && panY == 0.0 && !manualTransform
    {
      zoom := 1.0;
      panX := 0.0;
      panY := 0.0;
      manualTransform := false;
    }

    /** zoomIn: one step closer, the pan unchanged. */
    method ZoomIn()
      modifies this
      requires Valid()
      ensures Valid()
      ensures zoom == old(zoom) * ZOOM_STEP && zoom > old(zoom)
      ensures panX == old(panX) && panY == old(panY) && manualTransform == old(manualTransform)
    {
      zoom := zoom * ZOOM_STEP;
    }

    /** zoomOut: one step further, the pan unchanged. */
    method ZoomOut()
      modifies this
      requires Valid()
      ensures Valid()
      ensures zoom == old(zoom) / ZOOM_STEP && zoom < old(zoom)
      ensures panX == old(panX) && panY == old(panY) && manualTransform == old(manualTransform)
    {
      zoom := zoom / ZOOM_STEP;
    }

    /** The wheel handler at screen position (mouseX, mouseY): zoom by WheelFactor(deltaY) and
        move the pan so that the model point under the cursor stays under it. */
    method WheelZoom(mouseX: real, mouseY: real, deltaY: real)
      modifies this
      requires Valid()
      ensures Valid() && manualTransform
      ensures zoom == old(zoom) * WheelFactor(deltaY)
      ensures panX == WheelPan(mouseX, old(panX), old(zoom), WheelFactor(deltaY))
      ensures panY == WheelPan(mouseY, old(panY), old(zoom), WheelFactor(deltaY))
    {
      manualTransform := true;
      var cursorX := (mouseX - panX) / zoom;
      var cursorY := (mouseY - panY) / zoom;
      var zoomFactor := WheelFactor(deltaY);
      zoom := zoom * zoomFactor;
      panX := mouseX - cursorX * zoom;
      panY := mouseY - cursorY * zoom;
    }
  }

  /** zoomIn followed by zoomOut gives back the zoom and the pan exactly. */
  method ZoomInThenOut(v: View)
    modifies v
    requires v.Valid()
    ensures v.Valid()
    ensures v.zoom == old(v.zoom) && v.panX == old(v.panX) && v.panY == old(v.panY)
  {
    v.ZoomIn();
    v.ZoomOut();
  }

  /** One wheel step in and one out at the same cursor position give back the zoom and the
      pan exactly. */
  method WheelInThenOut(v: View, mouseX: real, mouseY: real)
    modifies v
    requires v.Valid()
    ensures v.Valid()
    ensures v.zoom == old(v.zoom) && v.panX == old(v.panX) && v.panY == old(v.panY)
  {
    ghost var z0, x0, y0 := v.zoom, v.panX, v.panY;
    v.WheelZoom(mouseX, mouseY, -1.0);
    v.WheelZoom(mouseX, mouseY, 1.0);
    WheelRoundTrip(mouseX, x0, z0);
    WheelRoundTrip(mouseY, y0, z0);
  }
}
