/**
 * One cycle of the OCR worker after `readtext` (streamlit_app.py:60-117): the
 * adopted text is debounced against the worker's own last detection and, when
 * accepted, published together with its time to the slot the monitor reads.
 */
module Detection {
  import opened Opt
  import opened Text

  /** `detected_text_shared`: the latest accepted detection and when it was made. */
  class DetectionSlot {
    var text: Option<string>
    var timestamp: real

    constructor ()
      ensures text == None && timestamp == 0.0
    {
      text := None;
      timestamp := 0.0;
    }
  }

  /** What one `readtext` call gave: it raised, or it returned these strings. */
  datatype OcrResult = OcrFailed | OcrTexts(texts: seq<string>)

  /** The debounce test of line 112: a selected text is accepted when it differs
      from the last accepted one or when more than `debounce` seconds have passed
      since that one. */
  predicate Accepts(sel: Option<string>, lastDetect: Option<string>, lastDetectTime: real,
                    now: real, debounce: real)
    ensures Accepts(sel, lastDetect, lastDetectTime, now, debounce) ==> sel.Some?
    ensures sel == lastDetect && now - lastDetectTime <= debounce
            ==> !Accepts(sel, lastDetect, lastDetectTime, now, debounce)
    ensures sel.Some? && sel != lastDetect ==> Accepts(sel, lastDetect, lastDetectTime, now, debounce)
  {
    sel.Some? && (sel != lastDetect || now - lastDetectTime > debounce)
  }

  /** The worker thread's loop state `last_detect` / `last_detect_time`, and the
      shared slot it publishes to. */
  class OcrWorker {
    var lastDetect: Option<string>
    var lastDetectTime: real
    const slot: DetectionSlot

    /** The slot always shows the worker's last accepted detection, and that
        detection is a non-empty stripped string. */
    ghost predicate Valid()
      reads this, slot
    {
      && slot.text == lastDetect
      && slot.timestamp == lastDetectTime
      && (lastDetect.Some? ==> lastDetect.value != [] && IsStripped(lastDetect.value))
    }

    constructor (slot: DetectionSlot)
      requires slot.text == None && slot.timestamp == 0.0
      ensures Valid() && this.slot == slot
      ensures lastDetect == None && lastDetectTime == 0.0
    {
      this.slot := slot;
      lastDetect := None;
      lastDetectTime := 0.0;
    }

    /** The part of one loop iteration that follows the OCR call, at time `now`. */
    method Step(ocr: OcrResult, now: real, debounce: real) returns (accepted: bool)
      requires Valid()
      modifies this, slot
      ensures Valid()
      ensures accepted <==> (ocr.OcrTexts? &&
                             Accepts(FirstNonEmpty(ocr.texts), old(lastDetect), old(lastDetectTime), now, debounce))
      ensures accepted ==> lastDetect == FirstNonEmpty(ocr.texts) && lastDetectTime == now
      ensures accepted ==> slot.text == FirstNonEmpty(ocr.texts) && slot.timestamp == now
      ensures !accepted ==> lastDetect == old(lastDetect) && lastDetectTime == old(lastDetectTime)
      ensures !accepted ==> slot.text == old(slot.text) && slot.timestamp == old(slot.timestamp)
    {
      accepted := false;
      if ocr.OcrFailed? {
        return;                        // the exception path: skip this cycle
      }
      var newText := SelectText(ocr.texts);
      if newText.Some? {
        if newText != lastDetect || now - lastDetectTime > debounce {
          lastDetect := newText;
          lastDetectTime := now;
          slot.text := newText;
          slot.timestamp := now;
          accepted := true;
        }
      }
    }
  }
}
