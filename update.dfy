/** The note-repair helpers of code/anki/update.py: splitting note ids into
    batches, prepending the audio markup to the audio fields of a note, and
    inserting a downloaded sound after the first US audio row of the
    `POS_Definitions` field. */
module Update {
  import opened Wrappers
  import opened Text

  // ---------------------------------------------------------------------------
  // chunked
  // ---------------------------------------------------------------------------

  /** The blocks laid end to end. */
  function Flatten<T>(blocks: seq<seq<T>>): (r: seq<T>)
    ensures blocks != [] ==> |r| >= |blocks[|blocks| - 1]|
  {
    if blocks == [] then [] else Flatten(blocks[..|blocks| - 1]) + blocks[|blocks| - 1]
  }

  lemma FlattenSnoc<T>(blocks: seq<seq<T>>, b: seq<T>)
    ensures Flatten(blocks + [b]) == Flatten(blocks) + b
  {
    assert (blocks + [b])[..|blocks|] == blocks;
  }

  /** The size a full block reaches: a block is emitted once `len(block) >= size`,
      so a size below 1 emits every item on its own. */
  function Width(size: int): (w: nat)
    ensures w >= 1
    ensures size >= 1 ==> w == size
  {
    if size >= 1 then size else 1
  }

  /** `chunked`: cuts the items into consecutive blocks; every block but the last
      is full and the last holds at least one item and at most a full block. */
  method Chunked<T>(items: seq<T>, size: int) returns (blocks: seq<seq<T>>)
    ensures Flatten(blocks) == items
    ensures forall i :: 0 <= i < |blocks| ==> 1 <= |blocks[i]| <= Width(size)
    ensures forall i :: 0 <= i < |blocks| - 1 ==> |blocks[i]| == Width(size)
    ensures blocks == [] <==> items == []
  {
    var w := Width(size);
    blocks := [];
    var block: seq<T> := [];
    for i := 0 to |items|
      invariant Flatten(blocks) + block == items[..i]
      invariant |block| < w
      invariant forall j :: 0 <= j < |blocks| ==> |blocks[j]| == w
    {
      assert items[..i + 1] == items[..i] + [items[i]];
      block := block + [items[i]];
      if |block| >= size {
        FlattenSnoc(blocks, block);
        blocks := blocks + [block];
        block := [];
      }
    }
    assert items[..|items|] == items;
    if block != [] {
      FlattenSnoc(blocks, block);
      blocks := blocks + [block];
    }
  }

  // ---------------------------------------------------------------------------
  // Prepending the audio markup (update_notes_audio)
  // ---------------------------------------------------------------------------

  /** The fields that receive the pronunciation audio. */
  const AudioTargets: seq<string> := ["Pronunciation", "POS_Definitions"]

  /** A note field's value, `""` when the note lacks the field. */
  function FieldText(fields: map<string, string>, name: string): string {
    if name in fields then fields[name] else ""
  }

  /** The new value of one target field, or `None` when the markup is already in it. */
  function AudioUpdate(current: string, markup: string): (r: Option<string>)
    ensures r.None? <==> Contains(current, markup)
    ensures r.Some? ==> markup <= r.value && |r.value| >= |current|
    ensures r.Some? ==> (r.value == markup <==> current == "")
    ensures r.Some? ==> r.value[|r.value| - |current|..] == current
  {
    if Contains(current, markup) then None
    else if current != "" then Some(markup + "\n" + current)
    else Some(markup)
  }

  /** The new value holds the markup, so fixing a field twice changes it once. */
  lemma AudioUpdateIdempotent(current: string, markup: string)
    ensures AudioUpdate(current, markup).Some? ==> AudioUpdate(AudioUpdate(current, markup).value, markup).None?
  {
    match AudioUpdate(current, markup)
    case None =>
    case Some(r) =>
      assert r[0..|markup|] == markup;
      ContainsAt(r, markup, 0);
  }

  /** `fields_to_update` of `update_notes_audio`: each target field lacking the
      markup, with the markup prepended. */
  method AudioFieldUpdates(fields: map<string, string>, markup: string) returns (updates: map<string, string>)
    ensures forall name :: name in updates <==> name in AudioTargets && AudioUpdate(FieldText(fields, name), markup).Some?
    ensures forall name :: name in updates ==> updates[name] == AudioUpdate(FieldText(fields, name), markup).value
  {
    updates := map[];
    for i := 0 to |AudioTargets|
      invariant forall name :: name in updates <==> name in AudioTargets[..i] && AudioUpdate(FieldText(fields, name), markup).Some?
      invariant forall name :: name in updates ==> updates[name] == AudioUpdate(FieldText(fields, name), markup).value
    {
      var name := AudioTargets[i];
      assert AudioTargets[..i + 1] == AudioTargets[..i] + [name];
      match AudioUpdate(FieldText(fields, name), markup)
      case None =>
      case Some(v) =>
        updates := updates[name := v];
    }
    assert AudioTargets[..|AudioTargets|] == AudioTargets;
  }

  /** Writing the updates back and recomputing them yields no further update. */
  lemma AudioFieldUpdatesStable(fields: map<string, string>, markup: string, updates: map<string, string>)
    requires forall name :: name in updates <==> name in AudioTargets && AudioUpdate(FieldText(fields, name), markup).Some?
    requires forall name :: name in updates ==> updates[name] == AudioUpdate(FieldText(fields, name), markup).value
    ensures forall name :: name in AudioTargets ==> AudioUpdate(FieldText(fields + updates, name), markup).None?
  {
    forall name | name in AudioTargets
      ensures AudioUpdate(FieldText(fields + updates, name), markup).None?
    {
      AudioUpdateIdempotent(FieldText(fields, name), markup);
    }
  }

  // ---------------------------------------------------------------------------
  // Backfilling the US sound (backfill_sound_from_pos_definitions)
  // ---------------------------------------------------------------------------

  /** The new `POS_Definitions` value for one note, or `None` when the note is
      skipped. `row` is the audio row the US-audio pattern found in the field and
      `sound` the `[sound:…]` markup of its downloaded audio. A note is skipped
      exactly when its field is empty, the pattern finds no row, the download
      yields no markup, or the markup is already in the field. */
  function Backfill(posField: string, row: Option<string>, sound: Option<string>): (r: Option<string>)
    ensures r.None? <==> posField == "" || row.None? || sound.None? || sound.value == "" || Contains(posField, sound.value)
  {
    if posField == "" then None
    else match row
      case None => None
      case Some(rowHtml) =>
        match sound
        case None => None
        case Some(markup) =>
          if markup == "" || Contains(posField, markup) then None
          else Some(ReplaceFirst(posField, rowHtml, rowHtml + markup))
  }

  /** The sound is inserted right after the first occurrence of the row, and the
      rest of the field is kept on both sides. */
  lemma BackfillAfterFirstRow(posField: string, row: string, sound: string)
    requires Contains(posField, row)
    requires Backfill(posField, Some(row), Some(sound)).Some?
    ensures var i := Find(posField, row).value;
      && (forall j :: 0 <= j < i ==> !OccursAt(posField, row, j))
      && posField[i..i + |row|] == row
      && Backfill(posField, Some(row), Some(sound)).value
         == posField[..i + |row|] + sound + posField[i + |row|..]
  {
    var i := Find(posField, row).value;
    var r := ReplaceFirst(posField, row, row + sound);
    assert Backfill(posField, Some(row), Some(sound)).value == r;
    assert r == posField[..i] + (row + sound) + posField[i + |row|..];
    assert posField[..i] + row == posField[..i + |row|];
  }

  /** Once backfilled, the field holds the sound, so a second pass skips it
      whatever row the pattern then finds. */
  lemma BackfillIdempotent(posField: string, row: string, sound: string, again: Option<string>)
    requires Contains(posField, row)
    requires Backfill(posField, Some(row), Some(sound)).Some?
    ensures Backfill(Backfill(posField, Some(row), Some(sound)).value, again, Some(sound)).None?
  {
    BackfillAfterFirstRow(posField, row, sound);
    var i := Find(posField, row).value;
    ContainsMiddle(posField[..i + |row|], sound, posField[i + |row|..]);
  }
}
