/**
 * The assistant-mode radio buttons. The mode is read once from
 * `localStorage['assistantMode']`, anything other than "agentic" meaning
 * basic; a change is written back to storage, taken as the new mode and
 * handed to the parent's callback.
 */
module ModeSelect {
  import opened Wrappers
  import BrowserStorage

  datatype Mode = Basic | Agentic

  const ModeKey := "assistantMode"

  /** The string a mode is sent and stored as. */
  function ModeName(m: Mode): (s: string)
    ensures s == "agentic" <==> m == Agentic
    ensures s == "basic" <==> m == Basic
  {
    match m
    case Basic => "basic"
    case Agentic => "agentic"
  }

  /** A stored value read as a mode: "agentic" only when exactly that string is stored. */
  function NormaliseMode(stored: Option<string>): (m: Mode)
    ensures m == Agentic <==> stored == Some("agentic")
  {
    if stored == Some("agentic") then Agentic else Basic
  }

  /** A mode written to storage reads back as the same mode. */
  lemma ModeRoundTrip(m: Mode)
    ensures NormaliseMode(Some(ModeName(m))) == m
  {
  }

  class SelectMode {
    var mode: Mode

    /** Mounting: the initial mode comes from storage. */
    constructor (storage: BrowserStorage.LocalStorage)
      ensures mode == NormaliseMode(storage.GetItem(ModeKey))
    {
      mode := NormaliseMode(storage.GetItem(ModeKey));
    }

    /** Whether the radio button for `option` is checked. */
    function Checked(option: Mode): (c: bool)
      reads this
      ensures c <==> option == mode
    {
      mode == option
    }

    /**
     * `handleModeChange`: stores the selected mode, takes it as the current
     * mode and returns the mode the parent's callback receives.
     */
    method HandleModeChange(selected: Mode, storage: BrowserStorage.LocalStorage) returns (notified: Mode)
      modifies this, storage
      ensures storage.items == old(storage.items)[ModeKey := ModeName(selected)]
      ensures mode == selected && notified == selected
      ensures Checked(selected) && forall other :: other != selected ==> !Checked(other)
    {
      storage.SetItem(ModeKey, ModeName(selected));
      mode := selected;
      notified := selected;
    }
  }

  /** Exactly one of the two buttons is checked, whatever the mode. */
  lemma ExactlyOneChecked(s: SelectMode)
    ensures s.Checked(Basic) != s.Checked(Agentic)
  {
  }

  /** A selector mounted after a mode change starts in the mode that was chosen. */
  method RemountAfterChange(s: SelectMode, storage: BrowserStorage.LocalStorage, selected: Mode)
    returns (remounted: SelectMode)
    modifies s, storage
    ensures remounted.mode == selected && s.mode == selected
  {
    var _ := s.HandleModeChange(selected, storage);
    ModeRoundTrip(selected);
    remounted := new SelectMode(storage);
  }
}
