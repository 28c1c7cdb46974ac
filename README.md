# Drive-letter decoder

A Dafny model of the drive enumerator of a small Windows desktop tool
(src/lib.rs). Windows reports the mapped drives as a 32-bit mask from the
Win32 function `GetLogicalDrives`: bit *i*, counted from the least
significant bit, stands for drive `'A' + i`, and a result of 0 means that the
call failed. The tool decodes that mask into a set of drive letters
(`get_drives`) and turns the set into the labels `"C:/"`, `"D:/"`, … that it
lists in a drop-down (`MyApp::convert_drives_to_drive_letters`).

The model has three modules:

- `Drives` (drives.dfy) holds the error type `GetLogicalDrivesError`, the
  constant `INVALID_DRIVE_LETTER_BITMASK` (bits 26 to 31, `0xFC00_0000`), and
  the decoder.
  - `GetDrives` is a pure function of the mask and of the error code that
    `GetLastError` would return.
  - Its pipeline `view_bits::<Lsb0>()`, `zip('A'..='Z')`, `filter_map` and
    `collect` is `ViewBits`, `DriveLetterRange`, `SelectByBits` and a set
    comprehension.
- `DriveProperties` (drive_properties.dfy) proves what a decoded set means.
  - It is non-empty, holds at most 26 letters, and every letter is in
    'A'..'Z'.
  - Mask 4 gives `{'C'}`.
  - The bit view `ViewBits` is undone by `BitsValue`, which puts bits back
    together least significant first, so the view loses nothing.
  - The re-encoding `Encode` (bit *L* − 'A' set for each letter *L*) undoes
    the decoding, and undoing works in both directions. So distinct valid
    masks decode to distinct sets.
- `App` (my_app.dfy) models the `MyApp` struct as a class.
  - The label formatter is a method with a loop. It walks the set in an
    arbitrary order, as the source's `HashSet` does, and pushes one label per
    drive.
  - A label is read back by `LabelDrive`, the inverse of `DriveLabel`.
  - Its result is stated up to order, by `Labelling`: the labels as a
    multiset equal the labels of the drives.

The mask is a `bv32`, as the source's `u32` is combined with `&`. The error
code is a `u32` subset of `int`.

## Model

| member | source | states |
|---|---|---|
| Drives.GetDrives | src/lib.rs:40-64 | A mask of 0 gives exactly `ApiError` carrying the supplied last-error code, and never an `Ok`. A non-zero mask with any of bits 26–31 set gives exactly `TooManyDrivesError`, whatever bits 0–25 hold. Every other mask gives `Ok`, with the set of 'A'+i for every i < 26 whose bit is set. |
| Drives.SelectByBits | src/lib.rs:50-61 | Zipping bits with letters (stopping at the shorter) and keeping the letters whose bit is set yields exactly the letters paired with a set bit, and no more letters than were offered. |
| Drives.DriveLetterRange | src/lib.rs:53 | The range `'A'..='Z'` holds exactly the letters 'A' to 'Z' (26 of them), in strictly increasing order. |
| Drives.LetterIndex | src/lib.rs:53 | A letter in 'A'..'Z' is the drive letter of the bit position c − 'A', which is below 26. |
| DriveProperties.ViewBitsRoundTrip | src/lib.rs:51 | The bits of `view_bits::<Lsb0>()`, put back as bit 0 first, make up the mask again: the view loses nothing and reads the least significant bit first. |
| DriveProperties.ViewBitsInjective | src/lib.rs:51 | Two masks have the same bit view exactly when they are equal. |
| DriveProperties.ValidMaskFits | src/lib.rs:47 | A mask passes the `INVALID_DRIVE_LETTER_BITMASK` test exactly when it fits in the 26 low bits. |
| DriveProperties.OkDriveSetBounds | src/lib.rs:44-62 | A successful decoding is non-empty, has at most 26 elements and holds only letters in 'A'..'Z'. |
| DriveProperties.EncodeDecode | src/lib.rs:50-62 | Re-encoding the set that a mask decodes to (bit L−'A' for each letter L) gives back the mask. |
| DriveProperties.DecodeEncode | src/lib.rs:44-62 | Every non-empty set of letters in 'A'..'Z' is the decoding of its encoding, so every such set is reachable. |
| DriveProperties.DecodeInjective | src/lib.rs:50-62 | Two masks that decode to the same set are equal. |
| DriveProperties.EncodeLettersBits | src/lib.rs:50-62 | Bit i of the encoding is set exactly when the i-th letter is in the set. |
| DriveProperties.EncodeLettersOfBits | src/lib.rs:50-62 | A mask whose low bits agree with set membership letter by letter is that set's encoding. |
| DriveProperties.InDriveSet | src/lib.rs:53-61 | 'A'+i is in the set a mask stands for exactly when bit i is set. |
| DriveProperties.SomeLowBitSet | src/lib.rs:44-47 | A non-zero mask that fits in n bits has one of its n low bits set. |
| DriveProperties.MaskFourIsDriveC | src/lib.rs:50-62 | Mask 4 (only bit 2 set) decodes to `{'C'}`: bits are read least significant first. |
| App.DriveLabel | src/lib.rs:84 | The label `"{l}:/"` of a drive reads back as that drive. |
| App.LabelDriveInverse | src/lib.rs:84 | A string that reads back as drive l is exactly l's label. |
| App.MyApp.ConvertDrivesToDriveLetters | src/lib.rs:80-88 | An error gives no labels. A set of drives gives exactly as many labels as drives, the label of every drive once, in some order. |
| App.MyApp.constructor | src/lib.rs:73-79 | `drives` is the first query's decoding, the labels are those of the second query's decoding, and nothing is selected. |
| App.LabelOfSomeDrive | src/lib.rs:83-85 | Every label listed for a set of drives is `[L, ':', '/']` for a drive L of that set. |
| App.FirstCharsAreDrives | src/lib.rs:83-85 | The first characters of the labels, as a multiset, are exactly the set of drives. |
| App.LabelsAreDriveLetters | src/lib.rs:80-88 | Every label listed for a decoded mask is a letter 'A'..'Z' followed by ":/". |
| App.LabellingDeterminesDrives | src/lib.rs:83-85 | Two sets of drives with the same labels are the same set. |
| App.LabelSetSize | src/lib.rs:83-85 | A set of drives has exactly as many distinct labels as drives. |
| App.DriveLabelInjective | src/lib.rs:84 | Two drives have the same label exactly when they are the same drive. |
| App.DriveCLabels | src/lib.rs:83-85 | The only labelling of `{'C'}` is `["C:/"]`. |
| App.StartWithDriveC | src/lib.rs:73-79 | An application started while only drive C is mapped (mask 4) holds `Ok({'C'})`, lists just `"C:/"` and selects nothing. |

## Left out

- The foreign calls `GetLogicalDrives` and `GetLastError` (src/lib.rs:41, 45) are not made. Their results, the mask and the error code, are parameters of `GetDrives`.
- The constructor's two calls to `get_drives` (src/lib.rs:75-76) become two independent (mask, error code) pairs. The model does not require them to agree.
- `MyApp::new`'s `eframe::CreationContext` argument is unused by the source and is not modelled.
- `update` (src/lib.rs:92-121) is immediate-mode UI: the drop-down rendering, the click that sets `selected_drive` and the `dbg!` output. It is not modelled, so `selectedDrive` is only ever initialised.
- The `Display` and `Debug` implementations of the error type (src/lib.rs:20-33) are text formatting for diagnostics and are not modelled.
- src/main.rs only configures and opens the window and is not part of this model.
- `App.MyApp.ConvertDrivesToDriveLetters`: the order of the labels is deliberately not stated, because a `HashSet` does not define its iteration order.
- `DriveProperties.Encode` combines the powers 2^(L−'A') with bitwise OR rather than `+`. The powers are distinct, so the two agree, but the proof is stated about the OR form.
