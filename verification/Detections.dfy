/** Rectangles, and the detections of the vision models. */
module Detections {
  datatype Rect = Rect(x: int, y: int, w: int, h: int)

  datatype Detection = Detection(text: string, rect: Rect, confidence: real)
}
