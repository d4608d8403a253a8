# webrtc-patcher loader: a Dafny model

webrtc-patcher replaces the X11 window capturer of a WebRTC build that ships
inside a Node module. Its `loader.cc` finds the offset of
`webrtc::WindowCapturerX11::CreateRawWindowCapturer` in the real library's ELF
symbol table. It loads that library from a sibling path (`real_` + its own
file name) and hooks the factory, so that every window capture goes through
its own `WindowCapturer`. That capturer redirects the chosen window with the
Composite extension, imports the window pixmap into EGL/GL, and reads frames
back. It watches X events to know when the pixmap must be recreated.

The model covers the three pieces of pure logic in that file:

- `capturer.dfy` (module `WindowCapturer`): the capturer as an immutable state
  record. The record holds the selected window (0, X's `None`, when there is
  none), the update flag, the pixmap handle, the recorded width and height,
  the result sink, and the set of pixmaps created and not yet freed.
  `Start`, `SelectSource`, `CaptureFrame`, `Release` and `PollEvents`
  (`Drain`) are pure step functions. The pending X event queue and what the
  server answers on recreation (`ServerReply`: new pixmap, its geometry) are
  inputs.
- `capturer_runs.dfy` (module `CapturerRuns`): arbitrary sequences of calls
  into the capturer, and what stays true across them.
- `symbols.dfy` (module `SymbolScan`): the scan for the target symbol over an
  already-decoded symbol table, and the hook address built from its result.
- `real_path.dfy` (module `RealPath`): the derivation of the real library's
  path, with `find_last_of`, `substr`, `npos` and `size_t` wrap-around.
- `wrappers.dfy` (module `Wrappers`): the `Option` type.

Integer widths follow the source. Window and pixmap ids (`unsigned long`
XIDs) and `GElf_Addr` are 64-bit. `width_` and `height_` are 32-bit.
`SourceId` is a signed 64-bit `intptr_t`, converted to `Window` by
two's-complement wrap-around, so `SelectSource(0)` leaves no source.

## Behaviour as coded

In the points below `loader.cc` behaves in ways a reader might not expect;
the model follows the code.

- Selecting a new source does not release the previous pixmap or EGL image.
  `SelectSource` only unsubscribes the old window and undoes its redirection.
  The old surface is freed by the next recreation in `CaptureFrame`
  (loader.cc:73) or by the destructor.
- A `DestroyNotify` does not free the surface either. It clears the selection
  and, by falling through the `switch`, sets the update flag. The surface
  stays allocated until the next recreation or the destructor.
- `Release` never resets `pixmap_` to `None`. The model keeps the stale handle
  too. Its `live` set records that the handle has been freed.
- The geometry is read from the new pixmap, not from the window. It is read
  only when the surface is recreated.
- Pending events are compared with the window selected at the moment each
  event is handled. After a destroy, later events for the old window are
  ignored.
- With no `/` in the loader path, `find_last_of` returns `npos` and `npos + 1`
  wraps to 0. The derived name is then `loader + "/real_" + loader`.

## Model

| member | source | states |
|---|---|---|
| `WindowCapturer.Initial` | loader.cc:198-209 | after construction: no window, update flag clear, no pixmap, nothing live, no sink; width and height are whatever the uninitialised fields hold |
| `WindowCapturer.InitialIsGood` | loader.cc:200-209 | the constructed state satisfies the capturer invariant |
| `WindowCapturer.Start` | loader.cc:57-59 | `Start` records the sink and changes nothing else |
| `WindowCapturer.StartReplacesSink` | loader.cc:57-59 | calling `Start` again replaces the earlier sink |
| `WindowCapturer.HandleEvent` | loader.cc:181-193 | one event changes only the selection and the update flag. A `DestroyNotify` for the selected window clears it and, falling through, sets the flag. A `ConfigureNotify`, `MapNotify` or `VisibilityNotify` for it sets the flag and keeps it. An event for another window, or of any other kind, changes nothing |
| `WindowCapturer.Drain` | loader.cc:175-196 | draining changes only the selection and the flag. The selection is lost exactly when a `DestroyNotify` for the selected window is pending, and losing it sets the flag. The flag ends set exactly when it was already set or a `DestroyNotify`, `ConfigureNotify`, `MapNotify` or `VisibilityNotify` for the selected window is pending. A queue with no event for the selected window, or with only event kinds the `switch` does not list, changes nothing |
| `WindowCapturer.SelectSource` | loader.cc:98-115 | always returns true. The new state is the old one with the window set to the id's unsigned conversion and the flag set, whatever events were pending. The pixmap and live surfaces are untouched. The id 0 leaves no source |
| `WindowCapturer.Release` | loader.cc:168-173 | frees the current pixmap (if any) and no other surface; `pixmap_` itself is not reset |
| `WindowCapturer.ReleaseFreesEverything` | loader.cc:157-173 | in a state satisfying the invariant, `Release` (as the destructor calls it) leaves no surface live |
| `WindowCapturer.CaptureFrame` | loader.cc:61-96 | a permanent error exactly when no window is selected after draining, and then nothing is created or freed. Recreation happens exactly when the drained state is stale. It frees the old surface and records the new pixmap and the server's geometry. A success leaves the flag clear and the frame has the recorded size. Without recreation the surface and size are unchanged. The result goes to the sink from `Start` |
| `WindowCapturer.GoodHoldsAtMostOneSurface` | loader.cc:72-77 | a state satisfying the invariant (exactly the surface `pixmap_` names is live) holds at most one live surface |
| `WindowCapturer.GoodPreserved` | loader.cc:57-115 | draining, `Start`, `SelectSource` and `CaptureFrame` all preserve the invariant |
| `WindowCapturer.SuccessHasSurface` | loader.cc:64-86 | from a good state, a successful capture reads from a live surface, made by this capture or already held before it |
| `WindowCapturer.SecondCaptureReuses` | loader.cc:61-96 | a second capture with no events in between recreates nothing, keeps the state and delivers the same result as the first |
| `WindowCapturer.StaleEventRecreatesOnce` | loader.cc:67-86 | after a resize, map or visibility event for the selected window, with no destroy of it pending, two captures recreate the surface once, on the first; both frames have the geometry reported then |
| `WindowCapturer.DestroyThenCaptureFails` | loader.cc:62-95 | a pending destroy of the selected window makes the capture a permanent error, clears the selection and frees nothing |
| `WindowCapturer.SelectThenCapture` | loader.cc:61-115 | selecting a non-zero id and capturing with no pending destroy of the new window recreates the surface; the frame has the server's geometry and only the new surface is live |
| `CapturerRuns.RunKeepsGood` | loader.cc:57-115 | any call sequence from a good state, with a `Start` before the first capture when no sink is recorded yet, ends in a good state in which exactly the surface `pixmap_` names is live, so at most one surface is live |
| `CapturerRuns.InForce` | loader.cc:72-86 | the reply in force at a capture is that of the last capture at or before it that recreated the surface (its own reply when it recreated), and the reply given before the run when no capture up to it recreated |
| `CapturerRuns.FramesSizedByLastRecreation` | loader.cc:67-86 | in any call sequence from a good state whose recorded size comes from a known reply, every successful frame has the geometry of the reply in force at that capture |
| `CapturerRuns.FramesComeFromRecreation` | loader.cc:61-115 | from a freshly constructed capturer, every successful frame has the geometry of the last recreating capture's reply, and there always is one; so, when every recreation's geometry query succeeds, no frame is sized by the uninitialised `width_` and `height_` |
| `CapturerRuns.NoSourcePersists` | loader.cc:61-115 | with no source and no `SelectSource` call, every capture is a permanent error, the selection stays empty and no surface is created or freed |
| `CapturerRuns.DestroyedSourceStaysGone` | loader.cc:175-196 | a capture that sees the selected window destroyed, and every later capture before a `SelectSource`, is a permanent error |
| `CapturerRuns.NeverSelectedNeverSucceeds` | loader.cc:61-96 | a freshly constructed capturer, started before its first capture, never delivers a frame before its first `SelectSource` |
| `SymbolScan.LastMatch` | loader.cc:246-255 | the scan result is 0 when no entry has the target name, and otherwise the value of the last entry that has it |
| `SymbolScan.ResolveOffset` | loader.cc:246-255 | the in-order loop that overwrites the offset at each match yields 0 without a match and the last match's value otherwise |
| `SymbolScan.OnlyMatchesMatter` | loader.cc:248-255 | the result is the same when only the matching entries are scanned |
| `SymbolScan.LastMatchAppend` | loader.cc:248-255 | for a table split in two parts, the later part decides whenever it has a match; otherwise the earlier part does |
| `SymbolScan.HookAddress` | loader.cc:264 | the hook target is load base plus offset, wrapping at 2^64 |
| `SymbolScan.MissingSymbolHooksLoadBase` | loader.cc:246-264 | the 0 result is not checked: without the symbol the hook targets the library's load base itself |
| `RealPath.FindLastOf` | loader.cc:224 | `npos` exactly when there is no slash; otherwise the index of a slash with no slash after it |
| `RealPath.Substr` | loader.cc:225 | the substring starting at `pos`: exactly `count` characters when that many remain, otherwise everything to the end |
| `RealPath.AddSize` | loader.cc:225 | `size_t` addition wraps at 2^64, so `npos + 1` is 0 |
| `RealPath.LastSlashOfSplit` | loader.cc:224 | the last slash of `dir + "/" + base`, where `base` has no slash, is at the index equal to the length of `dir` |
| `RealPath.SplitAtLastSlash` | loader.cc:224 | every path with a slash is a directory, a slash and a slash-free file name |
| `RealPath.RealNameOfSplitPath` | loader.cc:223-225 | with a slash, the derived name is the directory before the last slash, then `/real_`, then the file name |
| `RealPath.RealName` | loader.cc:223-225 | with no slash, `npos` and its wrap to 0 make the derived name the whole path, `/real_`, and the whole path again |
| `RealPath.RealNameIsSibling` | loader.cc:223-225 | the derived name's last slash splits it into the loader's directory and `real_` followed by the loader's file name |

## Left out

- X11 and Composite requests (`XSelectInput`, `XCompositeRedirectWindow`,
  `XCompositeUnredirectWindow`, `XCompositeNameWindowPixmap`, `XGetGeometry`,
  `XFreePixmap`, `XPending`, `XNextEvent`): foreign I/O. Pixmaps are abstract
  tokens, and the pixmap and geometry the server would return are inputs.
  The event queue is an input sequence.
- EGL and GL (context creation and switching, `eglCreateImage`, texture and
  framebuffer binding, `glReadPixels`, the debug callback): foreign graphics
  calls. Pixel contents are not modelled; a frame is its width and height.
- `WindowCapturer.CaptureFrame`: the frame's pixel data is not modelled, only
  its size, because the pixels come from GL read-back. A capture also needs
  a prior `Start`, because `callback_` is uninitialised until then; calling
  through it earlier is undefined behaviour, so the capture operations and
  call sequences require a recorded sink at every capture.
- `WindowCapturer.CaptureFrame` and `CapturerRuns.FramesComeFromRecreation`:
  failures of X requests are not modelled. The source ignores the status of
  `XCompositeNameWindowPixmap` and `XGetGeometry` (loader.cc:74-75), so an
  invalid selected id, or a window unmapped or destroyed after the drain,
  leaves `width_` and `height_` unwritten and the next frame is sized by the
  previous (or, on a first recreation, uninitialised) values. The model
  assumes every recreation obtains a valid pixmap and geometry.
- The constructor and destructor plumbing (loader.cc:123-166): opening the
  display, creating the EGL context, the texture and the framebuffer, and
  tearing them down. Only the initial field values and the destructor's call
  to `Release` are modelled.
- `CreateRawWindowCapturer` (loader.cc:117-120): allocation of a new capturer;
  the model starts from `Initial`.
- Converting the 32-bit unsigned `width_` and `height_` into webrtc's signed
  `DesktopSize`: X geometry is 16-bit on the wire, so that conversion never
  wraps.
- ELF parsing with libelf: the symbol table is an already-decoded sequence of
  (name, value) entries, each scanned once in order. The loop bound at
  loader.cc:248 subtracts the entry size from the section's byte size and
  compares that with an entry index; that bound, the reads it allows past
  the last entry, and the byte layout are not modelled.
- Loading and hooking: `dlopen`, `dlsym`, `dladdr` and funchook
  installation are runtime binary patching. Only the address arithmetic of
  loader.cc:264 is modelled.
- Logging to `/tmp/webrtc-patcher.log` and the forwarding call to the real
  `napi_register_module_v1`: side-effect glue.
- Concurrency: the capturer is single-threaded and the model is sequential.
