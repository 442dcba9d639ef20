/**
  The part of the Win32 world the hidden-window registry consults, frozen into
  one immutable snapshot: which window handles are live, the class name of each
  window, which windows the shell accepts a notification icon for, the current
  foreground window, and whether the save file can be opened for writing.
 */
module Desktop {

  /** Window handles travel through `uintptr_t`, so they are 64-bit unsigned values. */
  const HANDLE_LIMIT: nat := 0x1_0000_0000_0000_0000

  /** `UINT`, the type of a notification icon's `uID`, is 32 bits wide. */
  const UINT_LIMIT: nat := 0x1_0000_0000

  type Handle = h: nat | h < HANDLE_LIMIT

  /** The null `HWND`. */
  const NULL: Handle := 0

  /** Class names of shell-owned windows that may never be hidden: the wallpaper
      worker, the taskbar and the desktop background host. */
  const SHELL_CLASSES: seq<string> := ["WorkerW", "Shell_TrayWnd", "Progman"]

  datatype Snapshot = Snapshot(
    live: set<Handle>,                // handles `IsWindow` reports as windows
    className: map<Handle, string>,   // what `GetClassName` yields; absent when it fails
    foreground: Handle,               // what `GetForegroundWindow` returns (possibly NULL)
    accepts: set<Handle>,             // windows for which `Shell_NotifyIcon(NIM_ADD)` succeeds
    writable: bool                    // whether the save file opens for writing
  )

  /** `IsWindow`: the null handle never identifies a window. */
  predicate IsWindow(os: Snapshot, w: Handle) {
    w != NULL && w in os.live
  }

  /** The window's class name is known and is one of the shell's own classes. */
  predicate IsShellWindow(os: Snapshot, w: Handle) {
    w in os.className && os.className[w] in SHELL_CLASSES
  }

  /** A window the tray may take: live and not owned by the shell. */
  predicate Eligible(os: Snapshot, w: Handle) {
    IsWindow(os, w) && !IsShellWindow(os, w)
  }

  /** The C cast `(UINT)x`: keep the low 32 bits. */
  function Truncate32(x: nat): (r: nat)
    ensures r < UINT_LIMIT
    ensures x < UINT_LIMIT ==> r == x
    ensures (x - r) % UINT_LIMIT == 0
  {
    x % UINT_LIMIT
  }

  /** The notification icon id of a hidden window: its handle cast to `UINT`. */
  function IconId(w: Handle): nat {
    Truncate32(w)
  }
}
