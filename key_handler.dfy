/**
 * KeyPacketHandler: turns the browser's key event into the input_packet the virtual device
 * reads. A non-zero key code is passed on as it is; a zero key code is looked up by the key's
 * DOM code string in a fixed table of Haiku scancodes and characters.
 */
module KeyInput {
  import opened Bytes
  import VirtualInput

  /** One table entry: the Haiku scancode and the character it types (0 for none). */
  datatype KeyInfo = KeyInfo(scancode: VirtualInput.U32, charcode: VirtualInput.U32)

  /** The KeyEvent sub-message of an InputEvent. */
  datatype KeyEvent = KeyEvent(keyCode: VirtualInput.U32, down: bool, modifiers: bv32,
                               utf32: VirtualInput.U32, keyString: string)

  /** The inserts for F1 .. F12, with no character, applied to m in order. */
  function FunctionKeys(m: map<string, KeyInfo>): map<string, KeyInfo>
  {
    m
      ["F1" := KeyInfo(0x02, 0)]
      ["F2" := KeyInfo(0x03, 0)]
      ["F3" := KeyInfo(0x04, 0)]
      ["F4" := KeyInfo(0x05, 0)]
      ["F5" := KeyInfo(0x06, 0)]
      ["F6" := KeyInfo(0x07, 0)]
      ["F7" := KeyInfo(0x08, 0)]
      ["F8" := KeyInfo(0x09, 0)]
      ["F9" := KeyInfo(0x0A, 0)]
      ["F10" := KeyInfo(0x0B, 0)]
      ["F11" := KeyInfo(0x0C, 0)]
      ["F12" := KeyInfo(0x0D, 0)]
  }

  /** The inserts for Shift, Control, Alt and Meta, left and right, with no character, applied to m in order. */
  function ModifierKeys(m: map<string, KeyInfo>): map<string, KeyInfo>
  {
    m
      ["ShiftLeft" := KeyInfo(0x4B, 0)]
      ["ShiftRight" := KeyInfo(0x56, 0)]
      ["ControlLeft" := KeyInfo(0x5C, 0)]
      ["ControlRight" := KeyInfo(0x60, 0)]
      ["AltLeft" := KeyInfo(0x5D, 0)]
      ["AltRight" := KeyInfo(0x5F, 0)]
      ["MetaLeft" := KeyInfo(0x66, 0)]
      ["MetaRight" := KeyInfo(0x67, 0)]
  }

  /** The inserts for the number row, Backquote to Backspace, applied to m in order. */
  function NumberRow(m: map<string, KeyInfo>): map<string, KeyInfo>
  {
    m
      ["Backquote" := KeyInfo(0x11, '`' as int)]
      ["Key1" := KeyInfo(0x12, '1' as int)]
      ["Key2" := KeyInfo(0x13, '2' as int)]
      ["Key3" := KeyInfo(0x14, '3' as int)]
      ["Key4" := KeyInfo(0x15, '4' as int)]
      ["Key5" := KeyInfo(0x16, '5' as int)]
      ["Key6" := KeyInfo(0x17, '6' as int)]
      ["Key7" := KeyInfo(0x18, '7' as int)]
      ["Key8" := KeyInfo(0x19, '8' as int)]
      ["Key9" := KeyInfo(0x1a, '9' as int)]
      ["Key0" := KeyInfo(0x1b, '0' as int)]
      ["Minus" := KeyInfo(0x1c, '-' as int)]
      ["Equal" := KeyInfo(0x1d, '=' as int)]
      ["Backspace" := KeyInfo(0x1e, 0x08)]
  }

  /** The inserts for Tab, Q .. P, the brackets and Backslash, applied to m in order. */
  function TopRow(m: map<string, KeyInfo>): map<string, KeyInfo>
  {
    m
      ["Tab" := KeyInfo(0x26, 0x09)]
      ["KeyQ" := KeyInfo(0x27, 'q' as int)]
      ["KeyW" := KeyInfo(0x28, 'w' as int)]
      ["KeyE" := KeyInfo(0x29, 'e' as int)]
      ["KeyR" := KeyInfo(0x2a, 'r' as int)]
      ["KeyT" := KeyInfo(0x2b, 't' as int)]
      ["KeyY" := KeyInfo(0x2c, 'y' as int)]
      ["KeyU" := KeyInfo(0x2d, 'u' as int)]
      ["KeyI" := KeyInfo(0x2e, 'i' as int)]
      ["KeyO" := KeyInfo(0x2f, 'o' as int)]
      ["KeyP" := KeyInfo(0x30, 'p' as int)]
      ["BracketLeft" := KeyInfo(0x31, '[' as int)]
      ["BracketRight" := KeyInfo(0x32, ']' as int)]
      ["Backslash" := KeyInfo(0x33, '\\' as int)]
  }

  /** The inserts for CapsLock, A .. L, Semicolon, Quote and Enter, applied to m in order. */
  function HomeRow(m: map<string, KeyInfo>): map<string, KeyInfo>
  {
    m
      ["CapsLock" := KeyInfo(0x3b, 0)]
      ["KeyA" := KeyInfo(0x3c, 'a' as int)]
      ["KeyS" := KeyInfo(0x3d, 's' as int)]
      ["KeyD" := KeyInfo(0x3e, 'd' as int)]
      ["KeyF" := KeyInfo(0x3f, 'f' as int)]
      ["KeyG" := KeyInfo(0x40, 'g' as int)]
      ["KeyH" := KeyInfo(0x41, 'h' as int)]
      ["KeyJ" := KeyInfo(0x42, 'j' as int)]
      ["KeyK" := KeyInfo(0x43, 'k' as int)]
      ["KeyL" := KeyInfo(0x44, 'l' as int)]
      ["Semicolon" := KeyInfo(0x45, ';' as int)]
      ["Quote" := KeyInfo(0x46, '\'' as int)]
      ["Enter" := KeyInfo(0x47, 0x0a)]
  }

  /** The inserts for Z .. M, Comma, Period and Slash, applied to m in order. */
  function BottomRow(m: map<string, KeyInfo>): map<string, KeyInfo>
  {
    m
      ["KeyZ" := KeyInfo(0x4c, 'z' as int)]
      ["KeyX" := KeyInfo(0x4d, 'x' as int)]
      ["KeyC" := KeyInfo(0x4e, 'c' as int)]
      ["KeyV" := KeyInfo(0x4f, 'v' as int)]
      ["KeyB" := KeyInfo(0x50, 'b' as int)]
      ["KeyN" := KeyInfo(0x51, 'n' as int)]
      ["KeyM" := KeyInfo(0x52, 'm' as int)]
      ["Comma" := KeyInfo(0x53, ',' as int)]
      ["Period" := KeyInfo(0x54, '.' as int)]
      ["Slash" := KeyInfo(0x55, '/' as int)]
  }

  /** The inserts for Space and the four arrows, applied to m in order. */
  function SpaceAndArrows(m: map<string, KeyInfo>): map<string, KeyInfo>
  {
    m
      ["Space" := KeyInfo(0x5e, 0x20)]
      ["ArrowLeft" := KeyInfo(0x61, 0x1c)]
      ["ArrowDown" := KeyInfo(0x62, 0x1f)]
      ["ArrowRight" := KeyInfo(0x63, 0x1d)]
      ["ArrowUp" := KeyInfo(0x57, 0x1e)]
  }

  /** The inserts for Insert (twice, the same value both times), Delete, Home, End, PageUp and PageDown, applied to m in order. */
  function Navigation(m: map<string, KeyInfo>): map<string, KeyInfo>
  {
    m
      ["Insert" := KeyInfo(0x1F, 0x05)]
      ["Insert" := KeyInfo(0x1F, 0x05)]
      ["Delete" := KeyInfo(0x34, 0x7f)]
      ["Home" := KeyInfo(0x20, 0x01)]
      ["End" := KeyInfo(0x35, 0x04)]
      ["PageUp" := KeyInfo(0x21, 0x0b)]
      ["PageDown" := KeyInfo(0x36, 0x0c)]
  }

  /** What _InitKeyMap makes of the map m: the eight groups of inserts in source order, later ones winning. */
  function InitInto(m: map<string, KeyInfo>): map<string, KeyInfo>
  {
    Navigation(SpaceAndArrows(BottomRow(HomeRow(TopRow(NumberRow(ModifierKeys(FunctionKeys(m))))))))
  }

  /** The table a freshly constructed handler holds. */
  function KeyTable(): map<string, KeyInfo>
  {
    InitInto(map[])
  }

  /** Each of the first four groups overrides the keys it names and keeps every other entry of m. */
  lemma FirstGroupsOverride(m: map<string, KeyInfo>, k: string)
    ensures k in FunctionKeys(m) <==> k in m || k in FunctionKeys(map[])
    ensures k in FunctionKeys(m) ==> FunctionKeys(m)[k] == if k in FunctionKeys(map[]) then FunctionKeys(map[])[k] else m[k]
    ensures k in ModifierKeys(m) <==> k in m || k in ModifierKeys(map[])
    ensures k in ModifierKeys(m) ==> ModifierKeys(m)[k] == if k in ModifierKeys(map[]) then ModifierKeys(map[])[k] else m[k]
    ensures k in NumberRow(m) <==> k in m || k in NumberRow(map[])
    ensures k in NumberRow(m) ==> NumberRow(m)[k] == if k in NumberRow(map[]) then NumberRow(map[])[k] else m[k]
    ensures k in TopRow(m) <==> k in m || k in TopRow(map[])
    ensures k in TopRow(m) ==> TopRow(m)[k] == if k in TopRow(map[]) then TopRow(map[])[k] else m[k]
  {
  }

  /** Each of the last four groups overrides the keys it names and keeps every other entry of m. */
  lemma LastGroupsOverride(m: map<string, KeyInfo>, k: string)
    ensures k in HomeRow(m) <==> k in m || k in HomeRow(map[])
    ensures k in HomeRow(m) ==> HomeRow(m)[k] == if k in HomeRow(map[]) then HomeRow(map[])[k] else m[k]
    ensures k in BottomRow(m) <==> k in m || k in BottomRow(map[])
    ensures k in BottomRow(m) ==> BottomRow(m)[k] == if k in BottomRow(map[]) then BottomRow(map[])[k] else m[k]
    ensures k in SpaceAndArrows(m) <==> k in m || k in SpaceAndArrows(map[])
    ensures k in SpaceAndArrows(m) ==> SpaceAndArrows(m)[k] == if k in SpaceAndArrows(map[]) then SpaceAndArrows(map[])[k] else m[k]
    ensures k in Navigation(m) <==> k in m || k in Navigation(map[])
    ensures k in Navigation(m) ==> Navigation(m)[k] == if k in Navigation(map[]) then Navigation(map[])[k] else m[k]
  {
  }

  /** The entry for k in the last group that names it, if any. */
  function LastGroupEntry(k: string): Option<KeyInfo>
  {
    if k in Navigation(map[]) then Some(Navigation(map[])[k])
    else if k in SpaceAndArrows(map[]) then Some(SpaceAndArrows(map[])[k])
    else if k in BottomRow(map[]) then Some(BottomRow(map[])[k])
    else if k in HomeRow(map[]) then Some(HomeRow(map[])[k])
    else if k in TopRow(map[]) then Some(TopRow(map[])[k])
    else if k in NumberRow(map[]) then Some(NumberRow(map[])[k])
    else if k in ModifierKeys(map[]) then Some(ModifierKeys(map[])[k])
    else if k in FunctionKeys(map[]) then Some(FunctionKeys(map[])[k])
    else None
  }

  /** A key is in the table exactly when some group names it, and the last group naming it decides its entry. */
  lemma {:induction false} TableByGroups(k: string)
    ensures k in KeyTable() <==> LastGroupEntry(k).Some?
    ensures k in KeyTable() ==> KeyTable()[k] == LastGroupEntry(k).value
  {
    var m0: map<string, KeyInfo> := map[];
    FirstGroupsOverride(m0, k);
    LastGroupsOverride(m0, k);
    var m1 := FunctionKeys(m0);
    FirstGroupsOverride(m1, k);
    LastGroupsOverride(m1, k);
    var m2 := ModifierKeys(m1);
    FirstGroupsOverride(m2, k);
    LastGroupsOverride(m2, k);
    var m3 := NumberRow(m2);
    FirstGroupsOverride(m3, k);
    LastGroupsOverride(m3, k);
    var m4 := TopRow(m3);
    FirstGroupsOverride(m4, k);
    LastGroupsOverride(m4, k);
    var m5 := HomeRow(m4);
    FirstGroupsOverride(m5, k);
    LastGroupsOverride(m5, k);
    var m6 := BottomRow(m5);
    FirstGroupsOverride(m6, k);
    LastGroupsOverride(m6, k);
    var m7 := SpaceAndArrows(m6);
    FirstGroupsOverride(m7, k);
    LastGroupsOverride(m7, k);
  }

  class KeyPacketHandler {
    /** fKeyMap: DOM code string to scancode and character. */
    var keyMap: map<string, KeyInfo>

    /** The handler starts from an empty map and fills it with _InitKeyMap. */
    constructor()
      ensures keyMap == KeyTable()
    {
      keyMap := map[];
      new;
      InitKeyMap();
    }

    /** _InitKeyMap: inserts the entries one by one, overriding any earlier entry for the same key. */
    method InitKeyMap()
      modifies this`keyMap
      ensures keyMap == InitInto(old(keyMap))
    {
      var t := keyMap;
      t := t["F1" := KeyInfo(0x02, 0)];
      t := t["F2" := KeyInfo(0x03, 0)];
      t := t["F3" := KeyInfo(0x04, 0)];
      t := t["F4" := KeyInfo(0x05, 0)];
      t := t["F5" := KeyInfo(0x06, 0)];
      t := t["F6" := KeyInfo(0x07, 0)];
      t := t["F7" := KeyInfo(0x08, 0)];
      t := t["F8" := KeyInfo(0x09, 0)];
      t := t["F9" := KeyInfo(0x0A, 0)];
      t := t["F10" := KeyInfo(0x0B, 0)];
      t := t["F11" := KeyInfo(0x0C, 0)];
      t := t["F12" := KeyInfo(0x0D, 0)];
      t := t["ShiftLeft" := KeyInfo(0x4B, 0)];
      t := t["ShiftRight" := KeyInfo(0x56, 0)];
      t := t["ControlLeft" := KeyInfo(0x5C, 0)];
      t := t["ControlRight" := KeyInfo(0x60, 0)];
      t := t["AltLeft" := KeyInfo(0x5D, 0)];
      t := t["AltRight" := KeyInfo(0x5F, 0)];
      t := t["MetaLeft" := KeyInfo(0x66, 0)];
      t := t["MetaRight" := KeyInfo(0x67, 0)];
      t := t["Backquote" := KeyInfo(0x11, '`' as int)];
      t := t["Key1" := KeyInfo(0x12, '1' as int)];
      t := t["Key2" := KeyInfo(0x13, '2' as int)];
      t := t["Key3" := KeyInfo(0x14, '3' as int)];
      t := t["Key4" := KeyInfo(0x15, '4' as int)];
      t := t["Key5" := KeyInfo(0x16, '5' as int)];
      t := t["Key6" := KeyInfo(0x17, '6' as int)];
      t := t["Key7" := KeyInfo(0x18, '7' as int)];
      t := t["Key8" := KeyInfo(0x19, '8' as int)];
      t := t["Key9" := KeyInfo(0x1a, '9' as int)];
      t := t["Key0" := KeyInfo(0x1b, '0' as int)];
      t := t["Minus" := KeyInfo(0x1c, '-' as int)];
      t := t["Equal" := KeyInfo(0x1d, '=' as int)];
      t := t["Backspace" := KeyInfo(0x1e, 0x08)];
      t := t["Tab" := KeyInfo(0x26, 0x09)];
      t := t["KeyQ" := KeyInfo(0x27, 'q' as int)];
      t := t["KeyW" := KeyInfo(0x28, 'w' as int)];
      t := t["KeyE" := KeyInfo(0x29, 'e' as int)];
      t := t["KeyR" := KeyInfo(0x2a, 'r' as int)];
      t := t["KeyT" := KeyInfo(0x2b, 't' as int)];
      t := t["KeyY" := KeyInfo(0x2c, 'y' as int)];
      t := t["KeyU" := KeyInfo(0x2d, 'u' as int)];
      t := t["KeyI" := KeyInfo(0x2e, 'i' as int)];
      t := t["KeyO" := KeyInfo(0x2f, 'o' as int)];
      t := t["KeyP" := KeyInfo(0x30, 'p' as int)];
      t := t["BracketLeft" := KeyInfo(0x31, '[' as int)];
      t := t["BracketRight" := KeyInfo(0x32, ']' as int)];
      t := t["Backslash" := KeyInfo(0x33, '\\' as int)];
      t := t["CapsLock" := KeyInfo(0x3b, 0)];
      t := t["KeyA" := KeyInfo(0x3c, 'a' as int)];
      t := t["KeyS" := KeyInfo(0x3d, 's' as int)];
      t := t["KeyD" := KeyInfo(0x3e, 'd' as int)];
      t := t["KeyF" := KeyInfo(0x3f, 'f' as int)];
      t := t["KeyG" := KeyInfo(0x40, 'g' as int)];
      t := t["KeyH" := KeyInfo(0x41, 'h' as int)];
      t := t["KeyJ" := KeyInfo(0x42, 'j' as int)];
      t := t["KeyK" := KeyInfo(0x43, 'k' as int)];
      t := t["KeyL" := KeyInfo(0x44, 'l' as int)];
      t := t["Semicolon" := KeyInfo(0x45, ';' as int)];
      t := t["Quote" := KeyInfo(0x46, '\'' as int)];
      t := t["Enter" := KeyInfo(0x47, 0x0a)];
      t := t["KeyZ" := KeyInfo(0x4c, 'z' as int)];
      t := t["KeyX" := KeyInfo(0x4d, 'x' as int)];
      t := t["KeyC" := KeyInfo(0x4e, 'c' as int)];
      t := t["KeyV" := KeyInfo(0x4f, 'v' as int)];
      t := t["KeyB" := KeyInfo(0x50, 'b' as int)];
      t := t["KeyN" := KeyInfo(0x51, 'n' as int)];
      t := t["KeyM" := KeyInfo(0x52, 'm' as int)];
      t := t["Comma" := KeyInfo(0x53, ',' as int)];
      t := t["Period" := KeyInfo(0x54, '.' as int)];
      t := t["Slash" := KeyInfo(0x55, '/' as int)];
      t := t["Space" := KeyInfo(0x5e, 0x20)];
      t := t["ArrowLeft" := KeyInfo(0x61, 0x1c)];
      t := t["ArrowDown" := KeyInfo(0x62, 0x1f)];
      t := t["ArrowRight" := KeyInfo(0x63, 0x1d)];
      t := t["ArrowUp" := KeyInfo(0x57, 0x1e)];
      t := t["Insert" := KeyInfo(0x1F, 0x05)];
      t := t["Insert" := KeyInfo(0x1F, 0x05)];
      t := t["Delete" := KeyInfo(0x34, 0x7f)];
      t := t["Home" := KeyInfo(0x20, 0x01)];
      t := t["End" := KeyInfo(0x35, 0x04)];
      t := t["PageUp" := KeyInfo(0x21, 0x0b)];
      t := t["PageDown" := KeyInfo(0x36, 0x0c)];
      keyMap := t;
    }

    /**
     * The packet Handle writes to the input port, or None when nothing is written: no key
     * sub-message, or no input port. The type is PACKET_KEY and down and modifiers are copied.
     * A non-zero key code and its character pass through untouched; a zero key code with a
     * non-empty string found in the table takes the table's scancode, and the table's
     * character only when the event carries none; an unknown string leaves both as they came.
     */
    function Handle(key: Option<KeyEvent>, inputPort: int): (p: Option<VirtualInput.Packet>)
      reads this
      ensures p.Some? <==> key.Some? && inputPort >= 0
      ensures p.Some? ==> var k := key.value;
        p.value.KeyPacket? && VirtualInput.Kind(p.value) == VirtualInput.PACKET_KEY &&
        p.value.down == k.down && p.value.modifiers == k.modifiers
      ensures p.Some? && (key.value.keyCode != 0 || key.value.keyString !in keyMap) ==>
        p.value.keyCode == key.value.keyCode && p.value.utf32 == key.value.utf32
      ensures p.Some? && key.value.keyCode == 0 && key.value.keyString != "" && key.value.keyString in keyMap ==>
        var info := keyMap[key.value.keyString];
        p.value.keyCode == info.scancode &&
        p.value.utf32 == (if key.value.utf32 == 0 then info.charcode else key.value.utf32)
    {
      match key
      case None => None
      case Some(k) =>
        var (keyCode, charCode) :=
          if k.keyCode == 0 && k.keyString != "" && k.keyString in keyMap then
            var info := keyMap[k.keyString];
            (info.scancode, if k.utf32 == 0 then info.charcode else k.utf32)
          else (k.keyCode, k.utf32);
        if inputPort >= 0 then Some(VirtualInput.KeyPacket(keyCode, k.down, k.modifiers, charCode)) else None
    }
  }

  /** The empty string is not in the table, so the emptiness test never hides an entry. */
  lemma EmptyStringNotInTable()
    ensures "" !in KeyTable()
  {
    EmptyStringNotInFirstGroups();
    EmptyStringNotInLastGroups();
    TableByGroups("");
  }

  lemma EmptyStringNotInFirstGroups()
    ensures "" !in FunctionKeys(map[]) && "" !in ModifierKeys(map[]) && "" !in NumberRow(map[]) && "" !in TopRow(map[])
  {
  }

  lemma EmptyStringNotInLastGroups()
    ensures "" !in HomeRow(map[]) && "" !in BottomRow(map[]) && "" !in SpaceAndArrows(map[]) && "" !in Navigation(map[])
  {
  }

  /** Both "Insert" inserts agree, so the table holds the one entry they write. */
  lemma InsertEntry()
    ensures "Insert" in KeyTable() && KeyTable()["Insert"] == KeyInfo(0x1F, 0x05)
  {
    TableByGroups("Insert");
  }

  /** The F-key and modifier groups insert no character; neither does CapsLock in the home row. */
  lemma NoCharacterKeys(m: map<string, KeyInfo>, k: string)
    ensures k in FunctionKeys(map[]) ==> FunctionKeys(m)[k].charcode == 0
    ensures k in ModifierKeys(map[]) ==> ModifierKeys(m)[k].charcode == 0
    ensures "CapsLock" in HomeRow(m) && HomeRow(m)["CapsLock"].charcode == 0
  {
  }

  /** A letter key: "Key" followed by an upper-case letter. */
  predicate IsLetterKey(k: string)
  {
    |k| == 4 && k[..3] == "Key" && 'A' <= k[3] <= 'Z'
  }

  /** A digit key: "Key" followed by a decimal digit. */
  predicate IsDigitKey(k: string)
  {
    |k| == 4 && k[..3] == "Key" && '0' <= k[3] <= '9'
  }

  /** Every letter key is inserted by one of the three letter rows. */
  lemma LetterKeyPlaced(k: string)
    requires IsLetterKey(k)
    ensures k in TopRow(map[]) || k in HomeRow(map[]) || k in BottomRow(map[])
  {
    assert k == "Key" + [k[3]];
    match k[3]
    case 'A' => assert k == "KeyA";
    case 'B' => assert k == "KeyB";
    case 'C' => assert k == "KeyC";
    case 'D' => assert k == "KeyD";
    case 'E' => assert k == "KeyE";
    case 'F' => assert k == "KeyF";
    case 'G' => assert k == "KeyG";
    case 'H' => assert k == "KeyH";
    case 'I' => assert k == "KeyI";
    case 'J' => assert k == "KeyJ";
    case 'K' => assert k == "KeyK";
    case 'L' => assert k == "KeyL";
    case 'M' => assert k == "KeyM";
    case 'N' => assert k == "KeyN";
    case 'O' => assert k == "KeyO";
    case 'P' => assert k == "KeyP";
    case 'Q' => assert k == "KeyQ";
    case 'R' => assert k == "KeyR";
    case 'S' => assert k == "KeyS";
    case 'T' => assert k == "KeyT";
    case 'U' => assert k == "KeyU";
    case 'V' => assert k == "KeyV";
    case 'W' => assert k == "KeyW";
    case 'X' => assert k == "KeyX";
    case 'Y' => assert k == "KeyY";
    case 'Z' => assert k == "KeyZ";
  }

  /** The letter rows insert each letter key with its lower-case letter as the character. */
  lemma LetterRows(m: map<string, KeyInfo>, k: string)
    requires IsLetterKey(k)
    ensures k in TopRow(map[]) ==> TopRow(m)[k].charcode == k[3] as int + 32
    ensures k in HomeRow(map[]) ==> HomeRow(m)[k].charcode == k[3] as int + 32
    ensures k in BottomRow(map[]) ==> BottomRow(m)[k].charcode == k[3] as int + 32
  {
    TopRowLetters(m, k);
    HomeRowLetters(m, k);
  }

  lemma TopRowLetters(m: map<string, KeyInfo>, k: string)
    requires IsLetterKey(k)
    ensures k in TopRow(map[]) ==> TopRow(m)[k].charcode == k[3] as int + 32
  {
  }

  lemma HomeRowLetters(m: map<string, KeyInfo>, k: string)
    requires IsLetterKey(k)
    ensures k in HomeRow(map[]) ==> HomeRow(m)[k].charcode == k[3] as int + 32
  {
  }

  /** No letter key of the top row is inserted again by the home row. */
  lemma TopRowNotInHomeRow(k: string)
    requires IsLetterKey(k) && k in TopRow(map[])
    ensures k !in HomeRow(map[])
  {
  }

  /** No letter key of the top row is inserted again by the bottom row. */
  lemma TopRowNotInBottomRow(k: string)
    requires IsLetterKey(k) && k in TopRow(map[])
    ensures k !in BottomRow(map[])
  {
  }

  /** The groups after the letter rows insert no letter key. */
  lemma LetterKeysNotReinserted(k: string)
    requires IsLetterKey(k)
    ensures k !in SpaceAndArrows(map[]) && k !in Navigation(map[])
  {
  }

  /** No letter key of the home row is inserted again by the bottom row. */
  lemma HomeRowNotInBottomRow(k: string)
    requires IsLetterKey(k) && k in HomeRow(map[])
    ensures k !in BottomRow(map[])
  {
  }

  /** KeyA .. KeyZ end up with the lower-case letter, whichever row of the keyboard they sit in. */
  lemma LetterKeys(k: string)
    requires IsLetterKey(k)
    ensures k in KeyTable() && KeyTable()[k].charcode == k[3] as int + 32
  {
    LetterKeyPlaced(k);
    LetterRows(map[], k);
    LetterKeysNotReinserted(k);
    if k in TopRow(map[]) {
      TopRowNotInHomeRow(k);
      TopRowNotInBottomRow(k);
    } else if k in HomeRow(map[]) {
      HomeRowNotInBottomRow(k);
    }
    TableByGroups(k);
  }

  /** The number row inserts every digit key, with the digit as the character. */
  lemma DigitRow(m: map<string, KeyInfo>, k: string)
    requires IsDigitKey(k)
    ensures k in NumberRow(map[]) && NumberRow(m)[k].charcode == k[3] as int
  {
    assert k == "Key" + [k[3]];
    match k[3]
    case '0' => assert k == "Key0";
    case '1' => assert k == "Key1";
    case '2' => assert k == "Key2";
    case '3' => assert k == "Key3";
    case '4' => assert k == "Key4";
    case '5' => assert k == "Key5";
    case '6' => assert k == "Key6";
    case '7' => assert k == "Key7";
    case '8' => assert k == "Key8";
    case '9' => assert k == "Key9";
  }

  /** The groups after the number row insert no digit key. */
  lemma DigitKeysNotReinserted(k: string)
    requires IsDigitKey(k)
    ensures k !in TopRow(map[]) && k !in HomeRow(map[]) && k !in BottomRow(map[])
    ensures k !in SpaceAndArrows(map[]) && k !in Navigation(map[])
  {
    DigitKeysNotInLetterRows(k);
  }

  lemma DigitKeysNotInLetterRows(k: string)
    requires IsDigitKey(k)
    ensures k !in TopRow(map[]) && k !in HomeRow(map[])
  {
  }

  /** Key0 .. Key9 end up with the digit itself: no later group inserts a digit key. */
  lemma DigitKeys(k: string)
    requires IsDigitKey(k)
    ensures k in KeyTable() && KeyTable()[k].charcode == k[3] as int
  {
    DigitRow(map[], k);
    DigitKeysNotReinserted(k);
    TableByGroups(k);
  }

  /**
   * Ctrl plus a letter key sent by code string alone (key code 0, no character) reaches the
   * device as the control character of that letter: the table gives the lower-case letter,
   * the device maps it to 1 .. 26 and sends it as a single UTF-8 byte.
   */
  lemma CtrlLetterEndToEnd(h: KeyPacketHandler, k: string, down: bool, modifiers: bv32, inputPort: int, now: int)
    requires h.keyMap == KeyTable() && IsLetterKey(k) && inputPort >= 0
    requires modifiers & VirtualInput.B_CONTROL_KEY != 0
    ensures var p := h.Handle(Some(KeyEvent(0, down, modifiers, 0, k)), inputPort);
      p.Some? && p.value.KeyPacket? &&
      var m := VirtualInput.KeyEvent(p.value.keyCode, p.value.down, p.value.modifiers, p.value.utf32, now);
      m.down == down && m.rawChar == k[3] as int - 'A' as int + 1 && m.bytes == [k[3] as int - 'A' as int + 1]
  {
    LetterKeys(k);
    var p := h.Handle(Some(KeyEvent(0, down, modifiers, 0, k)), inputPort);
    var c := k[3] as int + 32;
    assert p.value.utf32 == c;
    VirtualInput.CtrlMapCodes(c, modifiers);
    var r := VirtualInput.CtrlMap(c, modifiers);
    assert r == k[3] as int - 'A' as int + 1;
    assert VirtualInput.Utf8(r) == [r, 0, 0, 0];
    assert VirtualInput.CString([r, 0, 0, 0]) == [r];
  }
}
