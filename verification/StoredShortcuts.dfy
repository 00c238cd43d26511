/**
 * What becomes of each stored shortcut: which entries `normalizeShortcuts` keeps, what a kept entry does and that a dropped
 * one does nothing; and which chords are hard reserved, by the keys they press (src/shared/commands.ts).
 */
module StoredShortcuts {
  import opened Options
  import opened Bindings
  import opened Commands
  import opened CommandConflicts

  // ---------------------------------------------------------------------------------------------
  // Hard-reserved chords
  // ---------------------------------------------------------------------------------------------

  /** The platform's main modifier and no other of the two. */
  predicate OnlyMain(keys: Parsed, mac: bool)
  {
    !keys.mod && (if mac then keys.cmd && !keys.ctrl else keys.ctrl && !keys.cmd)
  }

  /** Undo and redo, cut, copy, paste, select all, close, quit, hide and hide others, and every zoom chord. */
  predicate BelongsElsewhere(keys: Parsed, mac: bool)
  {
    || (OnlyMain(keys, mac) && !keys.alt && keys.key == "Z")
    || (OnlyMain(keys, mac) && !keys.alt && !keys.shift && keys.key in ["X", "C", "V", "A", "W", "Q", "H"])
    || (OnlyMain(keys, mac) && keys.alt && !keys.shift && keys.key == "H")
    || ((keys.ctrl || keys.cmd) && keys.key in ["=", "Plus", "-", "0"])
  }

  /** The reserved entry is a chord on a letter. */
  lemma ChordOnLetter(i: nat)
    requires i < 18 && ReservedAt(i).match_.Chord?
    ensures var b := ReservedAt(i).match_.binding; |b.key| == 1 && 'A' <= b.key[0] <= 'Z' && b.key == [b.key[0]]
  {
  }

  /** A reserved chord is hit by the bindings that press its keys on the platform, whatever they are spelled like. */
  lemma HitsIffSameKeys(u: Unicode, i: nat, text: string, mac: bool, id: CommandId)
    requires Lawful(u) && i < 18 && ReservedAt(i).match_.Chord? && Parse(u, text).Some?
    ensures Hits(u, i, text, mac, id)
            <==> id !in ReservedAt(i).except && Resolve(Parse(u, text).value, mac) == Resolve(ReservedAt(i).match_.binding, mac)
  {
    ChordOnLetter(i);
    var b := ReservedAt(i).match_.binding;
    hide Lawful, Canonical, Parse, Serialize, Resolve, ReservedAt;
    AlnumIsCanonical(u, b.key[0]);
    ParseSerialize(u, b);
    SameTextIffSameKeys(u, Serialize(b), text, mac);
  }

  /** The keys are those of a hard entry of the table. */
  predicate HardKeys(i: nat, keys: Parsed, mac: bool)
    requires i < 18
  {
    ReservedAt(i).hard
    && match ReservedAt(i).match_
       case Chord(b) => keys == Resolve(b, mac)
       case Zoom => (keys.ctrl || keys.cmd) && IsZoomKey(keys.key)
  }

  lemma HardKeysBelong(i: nat, keys: Parsed, mac: bool)
    requires i < 18 && HardKeys(i, keys, mac)
    ensures BelongsElsewhere(keys, mac)
  {
  }

  /** The entry of such keys. */
  function EntryOf(keys: Parsed): nat
  {
    if IsZoomKey(keys.key) then 10
    else if keys.key == "Z" then (if keys.shift then 1 else 0)
    else if keys.key == "X" then 2
    else if keys.key == "C" then 3
    else if keys.key == "V" then 4
    else if keys.key == "A" then 5
    else if keys.key == "W" then 6
    else if keys.key == "Q" then 7
    else if keys.alt then 9
    else 8
  }

  lemma BelongsToEntry(keys: Parsed, mac: bool)
    requires !keys.mod && BelongsElsewhere(keys, mac)
    ensures EntryOf(keys) < 18 && HardKeys(EntryOf(keys), keys, mac)
  {
  }

  lemma HardEntryExceptsNone(i: nat)
    requires i < 18 && ReservedAt(i).hard
    ensures ReservedAt(i).except == {}
  {
  }

  lemma HardHits(u: Unicode, i: nat, text: string, mac: bool, id: CommandId)
    requires Lawful(u) && i < 18 && Parse(u, text).Some?
    ensures ReservedAt(i).hard && Hits(u, i, text, mac, id) <==> HardKeys(i, Resolve(Parse(u, text).value, mac), mac)
  {
    hide Lawful, Parse, Serialize, Resolve, ReservedAt, IsZoomKey, ResolveBinding;
    if ReservedAt(i).hard {
      HardEntryExceptsNone(i);
    }
    if ReservedAt(i).match_.Chord? {
      HitsIffSameKeys(u, i, text, mac, id);
    }
  }

  /** A text is hard reserved exactly when it is a binding whose keys belong elsewhere; for every command alike. */
  lemma HardReservedIff(u: Unicode, text: string, mac: bool, id: CommandId)
    requires Lawful(u)
    ensures HardReserved(u, text, mac, id) <==> Parse(u, text).Some? && BelongsElsewhere(Resolve(Parse(u, text).value, mac), mac)
  {
    if Parse(u, text).Some? {
      var keys := Resolve(Parse(u, text).value, mac);
      forall i: nat | i < 18
        ensures ReservedAt(i).hard && Hits(u, i, text, mac, id) <==> HardKeys(i, keys, mac)
        ensures HardKeys(i, keys, mac) ==> BelongsElsewhere(keys, mac)
      {
        HardHits(u, i, text, mac, id);
        if HardKeys(i, keys, mac) {
          HardKeysBelong(i, keys, mac);
        }
      }
      if BelongsElsewhere(keys, mac) {
        BelongsToEntry(keys, mac);
        hide BelongsElsewhere, HardKeys, ReservedAt, Hits, Lawful, Parse;
        assert HardKeys(EntryOf(keys), keys, mac);
      }
    }
  }

  // ---------------------------------------------------------------------------------------------
  // Chords a warning is shown for
  // ---------------------------------------------------------------------------------------------

  /** Reload, the developer tools, and four chords that are each left to one command. */
  predicate WarnedOf(keys: Parsed, mac: bool, id: CommandId)
  {
    OnlyMain(keys, mac) && !keys.alt
    && ((keys.key == "R" || (keys.key == "I" && keys.shift))
        || (keys.key == "F" && !keys.shift && id != FIND_IN_THREAD)
        || (keys.key == "F" && keys.shift && id != FILES_TEXT_SEARCH)
        || (keys.key == "P" && !keys.shift && id != FILES_QUICK_OPEN)
        || (keys.key == "S" && !keys.shift && id != WORKFLOW_SAVE))
  }

  /** The keys are those of a soft entry that does not except the command. */
  predicate SoftKeys(i: nat, keys: Parsed, mac: bool, id: CommandId)
    requires i < 18
  {
    !ReservedAt(i).hard && id !in ReservedAt(i).except && ReservedAt(i).match_.Chord? && keys == Resolve(ReservedAt(i).match_.binding, mac)
  }

  lemma SoftKeysWarn(i: nat, keys: Parsed, mac: bool, id: CommandId)
    requires i < 18 && SoftKeys(i, keys, mac, id)
    ensures WarnedOf(keys, mac, id)
  {
  }

  function SoftEntryOf(keys: Parsed): nat
  {
    if keys.key == "R" then (if keys.shift then 12 else 11)
    else if keys.key == "I" then 13
    else if keys.key == "F" then (if keys.shift then 16 else 14)
    else if keys.key == "P" then 15
    else 17
  }

  lemma WarnedToEntry(keys: Parsed, mac: bool, id: CommandId)
    requires !keys.mod && WarnedOf(keys, mac, id)
    ensures SoftEntryOf(keys) < 18 && SoftKeys(SoftEntryOf(keys), keys, mac, id)
  {
  }

  lemma SoftIsChord(i: nat)
    requires i < 18 && !ReservedAt(i).hard
    ensures ReservedAt(i).match_.Chord?
  {
  }

  lemma SoftHits(u: Unicode, i: nat, text: string, mac: bool, id: CommandId)
    requires Lawful(u) && i < 18 && Parse(u, text).Some?
    ensures !ReservedAt(i).hard && Hits(u, i, text, mac, id) <==> SoftKeys(i, Resolve(Parse(u, text).value, mac), mac, id)
  {
    if !ReservedAt(i).hard {
      SoftIsChord(i);
      hide Lawful, Parse, Serialize, Resolve, ReservedAt, Hits;
      HitsIffSameKeys(u, i, text, mac, id);
    }
  }

  /** A binding is warned of, and only warned of, exactly when its keys are one of these chords and not left to the command. */
  lemma WarnedIff(u: Unicode, text: string, mac: bool, id: CommandId)
    requires Lawful(u)
    ensures (exists i: nat :: i < 18 && !ReservedAt(i).hard && Hits(u, i, text, mac, id))
            <==> Parse(u, text).Some? && WarnedOf(Resolve(Parse(u, text).value, mac), mac, id)
  {
    if Parse(u, text).Some? {
      var keys := Resolve(Parse(u, text).value, mac);
      forall i: nat | i < 18
        ensures !ReservedAt(i).hard && Hits(u, i, text, mac, id) <==> SoftKeys(i, keys, mac, id)
        ensures SoftKeys(i, keys, mac, id) ==> WarnedOf(keys, mac, id)
      {
        SoftHits(u, i, text, mac, id);
        if SoftKeys(i, keys, mac, id) {
          SoftKeysWarn(i, keys, mac, id);
        }
      }
      if WarnedOf(keys, mac, id) {
        WarnedToEntry(keys, mac, id);
        hide WarnedOf, SoftKeys, ReservedAt, Hits, Lawful, Parse;
        assert SoftKeys(SoftEntryOf(keys), keys, mac, id);
      }
    }
  }

  // ---------------------------------------------------------------------------------------------
  // Which entries are kept
  // ---------------------------------------------------------------------------------------------

  /** The keys a binding presses on the platform are not those of the command's default. */
  predicate NotTheDefault(id: CommandId, keys: Parsed, mac: bool)
  {
    DefaultKey(id, mac).None? || Resolve(DefaultKey(id, mac).value, mac) != keys
  }

  /** A stored value that means something for the command: see `KeptIff`. */
  predicate Meaningful(u: Unicode, id: CommandId, value: Stored, mac: bool)
  {
    !Fixed(id)
    && match value
       case Unbound => DefaultKey(id, mac).Some?
       case Junk => false
       case Text(text) =>
         Parse(u, text).Some? && var keys := Resolve(Parse(u, text).value, mac); !BelongsElsewhere(keys, mac) && NotTheDefault(id, keys, mac)
  }

  /**
   * An entry is kept exactly when its command is not fixed and it either unbinds a command that has a default, or is a
   * binding whose keys do not belong elsewhere and are not the default's. An unbinding is kept as one, and a binding as a
   * text that reads as the same binding.
   */
  lemma KeptIff(u: Unicode, id: CommandId, value: Stored, mac: bool)
    requires Lawful(u)
    ensures Cleaned(u, id, value, mac).Some? <==> Meaningful(u, id, value, mac)
    ensures Cleaned(u, id, value, mac).Some? ==>
              match value
              case Unbound => Cleaned(u, id, value, mac).value == None
              case Junk => false
              case Text(text) => Cleaned(u, id, value, mac).value.Some?
                                 && Parse(u, Cleaned(u, id, value, mac).value.value) == Parse(u, text)
  {
    hide Lawful, Canonical, Parse, Serialize, HardReserved, Resolve, DefaultKey, BelongsElsewhere, ResolveBinding;
    if value.Text? {
      HardReservedIff(u, value.text, mac, id);
      ParsedIsCanonical(u, value.text);
      if Parse(u, value.text).Some? && DefaultKey(id, mac).Some? {
        DefaultsAreFine(u, id, mac);
        SameTextIffSameKeys(u, value.text, DefaultOf(id, mac).value, mac);
      }
    }
  }

  /** The cleaned map has exactly the meaningful entries, each with its cleaned value. */
  lemma NormalizedHas(u: Unicode, raw: map<CommandId, Stored>, mac: bool, id: CommandId)
    requires Lawful(u)
    ensures id in Normalized(u, raw, mac) <==> id in raw && Meaningful(u, id, raw[id], mac)
    ensures id in Normalized(u, raw, mac) ==> Cleaned(u, id, raw[id], mac) == Some(Normalized(u, raw, mac)[id])
  {
    hide Lawful, Cleaned, Meaningful;
    if id in raw {
      KeptIff(u, id, raw[id], mac);
    }
  }

  // ---------------------------------------------------------------------------------------------
  // What a kept and a dropped entry do
  // ---------------------------------------------------------------------------------------------

  /** A command keeps the key it has without any override, unless its own stored entry is meaningful. */
  lemma DroppedEntryDoesNothing(u: Unicode, raw: map<CommandId, Stored>, mac: bool, id: CommandId)
    requires Lawful(u)
    requires id in raw ==> !Meaningful(u, id, raw[id], mac)
    ensures KeyOf(u, id, Normalized(u, raw, mac), mac) == KeyOf(u, id, map[], mac)
  {
    NormalizedHas(u, raw, mac, id);
    hide Lawful, Meaningful, Normalized, Parse, Serialize, ResolveBinding, DefaultKey;
  }

  /** The keys a command answers to, read from its resolved text. */
  function KeysOf(u: Unicode, id: CommandId, overrides: Overrides, mac: bool): Option<Parsed>
  {
    var key := KeyOf(u, id, overrides, mac);
    if key.Some? then Parse(u, key.value) else None
  }

  /** A meaningful entry decides: an unbinding leaves the command without a key, and a binding gives it the keys it presses. */
  lemma KeptEntryDecides(u: Unicode, raw: map<CommandId, Stored>, mac: bool, id: CommandId)
    requires Lawful(u) && id in raw && Meaningful(u, id, raw[id], mac)
    ensures KeysOf(u, id, Normalized(u, raw, mac), mac)
            == if raw[id].Unbound? then None else Some(Resolve(Parse(u, raw[id].text).value, mac))
    ensures KeyOf(u, id, Normalized(u, raw, mac), mac).Some? <==> raw[id].Text?
  {
    assert !Fixed(id) && !raw[id].Junk?;
    NormalizedHas(u, raw, mac, id);
    KeptIff(u, id, raw[id], mac);
    if raw[id].Text? {
      hide Lawful, Normalized, Parse, Resolve, Cleaned, Meaningful, KeyOf, KeysOf;
      BoundTo(u, id, Normalized(u, raw, mac), mac);
    } else {
      hide Lawful, Normalized, Parse, Serialize, ResolveBinding, DefaultKey, Cleaned;
    }
  }

  lemma BoundTo(u: Unicode, id: CommandId, overrides: Overrides, mac: bool)
    requires Lawful(u) && !Fixed(id) && id in overrides && overrides[id].Some? && Parse(u, overrides[id].value).Some?
    ensures KeyOf(u, id, overrides, mac).Some?
    ensures KeysOf(u, id, overrides, mac) == Some(Resolve(Parse(u, overrides[id].value).value, mac))
  {
    hide Lawful, Parse, Serialize, Resolve, DefaultKey;
    ResolvedReadsBack(u, overrides[id].value, mac);
  }

  /** Without an override a command answers to its default's keys. */
  lemma DefaultDecides(u: Unicode, id: CommandId, mac: bool)
    requires Lawful(u)
    ensures KeysOf(u, id, map[], mac)
            == if Fixed(id) || DefaultKey(id, mac).None? then None else Some(Resolve(DefaultKey(id, mac).value, mac))
    ensures KeyOf(u, id, map[], mac).Some? <==> !Fixed(id) && DefaultKey(id, mac).Some?
  {
    if DefaultKey(id, mac).Some? {
      DefaultsAreFine(u, id, mac);
      hide Lawful, Parse, Serialize, Resolve, DefaultKey, HardReserved;
      ResolvedReadsBack(u, DefaultOf(id, mac).value, mac);
    }
  }

  /** After cleaning exactly the commands with an entry left have another key than they ship with. */
  lemma KeptIffKeyMoves(u: Unicode, raw: map<CommandId, Stored>, mac: bool, id: CommandId)
    requires Lawful(u)
    ensures id in Normalized(u, raw, mac) <==> KeyOf(u, id, Normalized(u, raw, mac), mac) != KeyOf(u, id, map[], mac)
  {
    NormalizedHas(u, raw, mac, id);
    hide Lawful, Normalized, Parse, Serialize, Resolve, DefaultKey, BelongsElsewhere, Cleaned, KeyOf;
    if id in Normalized(u, raw, mac) {
      KeptEntryDecides(u, raw, mac, id);
      DefaultDecides(u, id, mac);
    } else {
      DroppedEntryDoesNothing(u, raw, mac, id);
    }
  }
}
