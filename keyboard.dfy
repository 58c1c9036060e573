/** Keyboard shortcuts of the preview generator
    (components/preview-generator/src/keyboard.rs): the buffer of held key
    codes and the Ctrl + key chords it recognises. */
module Keyboard {
  import opened Strings

  /** The buttons a shortcut clicks. */
  datatype Shortcut = UploadSvg | DownloadSvg | Copy | Save

  predicate IsControlCode(code: string)
  {
    code == "controlleft" || code == "controlright"
  }

  /** The button of a chord ending in `code` (already lowercased) after a
      control key. Ctrl + C clicks nothing while the page reports a
      selection. */
  function ChordButton(code: string, selectionPresent: bool): (r: Option<Shortcut>)
    ensures r.Some? <==>
      code == "arrowup" || code == "arrowdown" || code == "keys" || (code == "keyc" && !selectionPresent)
  {
    if code == "arrowup" then Some(UploadSvg)
    else if code == "arrowdown" then Some(DownloadSvg)
    else if code == "keyc" then (if selectionPresent then None else Some(Copy))
    else if code == "keys" then Some(Save)
    else None
  }

  /** What a keydown with the buffer `keys` (the new code already pushed)
      clicks: only a buffer of exactly two codes whose first is a control
      key fires. */
  function ShortcutFor(keys: seq<string>, selectionPresent: bool): (r: Option<Shortcut>)
  {
    if |keys| != 2 || !IsControlCode(keys[0]) then None
    else ChordButton(keys[1], selectionPresent)
  }

  /** A shortcut fires only for two held keys, a control key first. */
  lemma ShortcutNeedsControlChord(keys: seq<string>, selectionPresent: bool)
    ensures ShortcutFor(keys, selectionPresent).Some? ==> |keys| == 2 && IsControlCode(keys[0])
    ensures |keys| == 2 && IsControlCode(keys[0]) && keys[1] == "keys" ==>
      ShortcutFor(keys, selectionPresent) == Some(Save)
  {
  }

  /** `Vec::retain(|key| key != code)`: the other codes, in order. */
  function Retain(keys: seq<string>, code: string): (r: seq<string>)
    ensures code !in r
    ensures forall x :: x in r <==> x in keys && x != code
    ensures |r| <= |keys|
  {
    if keys == [] then []
    else if keys[0] == code then Retain(keys[1..], code)
    else [keys[0]] + Retain(keys[1..], code)
  }

  /** Releasing a key not in the buffer leaves it as it is. */
  lemma {:induction false} RetainAbsent(keys: seq<string>, code: string)
    requires code !in keys
    ensures Retain(keys, code) == keys
  {
    if keys != [] {
      assert keys[0] != code;
      assert code !in keys[1..];
      RetainAbsent(keys[1..], code);
      assert keys == [keys[0]] + keys[1..];
    }
  }

  class KeysPressed {
    var keys: seq<string>

    constructor ()
      ensures keys == []
    {
      keys := [];
    }

    /** The keydown listener. The code is lowercased and pushed; a
        recognised chord clicks its button and empties the buffer. Every
        click but Copy also prevents the browser's default action.
        `selectionPresent` is what the window's selection query reports. */
    method KeyDown(eventCode: string, selectionPresent: bool)
      returns (clicked: Option<Shortcut>, preventDefault: bool)
      modifies this
      ensures clicked == ShortcutFor(old(keys) + [Lower(eventCode)], selectionPresent)
      ensures keys == if clicked.Some? then [] else old(keys) + [Lower(eventCode)]
      ensures preventDefault <==> clicked.Some? && clicked != Some(Copy)
    {
      keys := keys + [Lower(eventCode)];
      var pressed := keys;
      var code := Lower(eventCode);
      clicked, preventDefault := None, false;
      if |pressed| != 2 {
        return;
      }
      var previous := pressed[0];
      if code == "arrowup" && IsControlCode(previous) {
        clicked := Some(UploadSvg);
        keys := [];
        preventDefault := true;
      } else if code == "arrowdown" && IsControlCode(previous) {
        clicked := Some(DownloadSvg);
        keys := [];
        preventDefault := true;
      } else if code == "keyc" && IsControlCode(previous) {
        if !selectionPresent {
          clicked := Some(Copy);
          keys := [];
        }
      } else if code == "keys" && IsControlCode(previous) {
        clicked := Some(Save);
        keys := [];
        preventDefault := true;
      }
    }

    /** The keyup listener: every entry equal to the released code goes. */
    method KeyUp(eventCode: string)
      modifies this
      ensures keys == Retain(old(keys), Lower(eventCode))
    {
      keys := Retain(keys, Lower(eventCode));
    }
  }

  /** Ctrl held down, then Up: the first keydown pushes the control key,
      the second fires the upload button and empties the buffer. */
  lemma CtrlUpUploads(control: string)
    requires IsControlCode(control)
    ensures ShortcutFor([] + [control], false).None?
    ensures ShortcutFor([control] + ["arrowup"], false) == Some(UploadSvg)
  {
  }

  /** A key repeat of the control key fills the buffer, so no chord fires
      until that key is released. */
  lemma RepeatBlocksChord(control: string, rest: seq<string>, code: string, selectionPresent: bool)
    requires IsControlCode(control)
    ensures ShortcutFor([control, control] + rest + [code], selectionPresent).None?
  {
  }

  /** Releasing a key removes all its repeats: a buffer holding only
      that code empties. */
  lemma {:induction false} ReleaseClearsAll(keys: seq<string>, code: string)
    requires forall k :: 0 <= k < |keys| ==> keys[k] == code
    ensures Retain(keys, code) == []
  {
    if keys != [] {
      ReleaseClearsAll(keys[1..], code);
    }
  }
}
