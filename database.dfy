/**
 * The three tables side by side. No table refers to another by key; an
 * entry made from a preset copies the preset's name and values.
 */
module Database {
  import opened Wrappers
  import opened Tables
  import Entries
  import Presets
  import Settings

  /**
   * Deleting a preset touches the preset table alone: the entries (and
   * any entries once made from that preset) and the settings stay as they were.
   */
  method DeletePreset(
    presets: Table<Presets.PresetFields>, entries: Table<Entries.EntryFields>,
    settings: Table<Settings.Targets>, id: Option<int>)
    returns (success: bool)
    requires presets.Valid()
    modifies presets
    ensures presets.Valid()
    ensures success <==> id.Some? && IsInt4(id.value)
    ensures presets.rows == (if success then WithoutId(old(presets.rows), id.value) else old(presets.rows))
    ensures presets.nextId == old(presets.nextId)
    ensures entries.State() == old(entries.State()) && settings.State() == old(settings.State())
  {
    success := Presets.Delete(presets, id);
  }
}
