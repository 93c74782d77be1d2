/** The dialog's `selected_images` list and the four operations that change
    it: adding the files chosen in the file dialog, pasting from the
    clipboard, removing one entry, and clearing the list.

    Reading a file, decoding bytes with the image library, grabbing the
    clipboard and re-encoding a picture as PNG are calls into code outside
    the model; each one enters as a parameter (a decoder or encoder
    function, or the value the call produced). */
module Images {
  import opened Wrappers
  import opened Text

  newtype byte = x: int | 0 <= x < 0x100
  type Bytes = seq<byte>

  /** Width and height in pixels, as the image library reports them. */
  datatype Size = Size(width: nat, height: nat)

  /** One entry of `selected_images`: the bytes handed on at submit time, a
      label saying where they came from, and the decoded size. The library's
      image object, kept only to draw the preview thumbnail, is not modelled. */
  datatype ImageRecord = ImageRecord(data: Bytes, source: string, size: Size)

  /** What the image library makes of some bytes: their size, or `None`
      when opening them raises. */
  type Decoder = Bytes -> Option<Size>

  /** The collection invariant: every entry's bytes decode, and to the size
      the entry records. */
  ghost predicate Valid(decode: Decoder, images: seq<ImageRecord>) {
    forall k :: 0 <= k < |images| ==> decode(images[k].data) == Some(images[k].size)
  }

  /* ---------------------------------------------------------- from files */

  const FileSourcePrefix: string := "文件: "

  /** Where the last component of `path` starts: just after its last `/`,
      or at the beginning when it has none. */
  function NameStart(path: string): (n: nat)
    ensures n <= |path|
    ensures forall i :: n <= i < |path| ==> path[i] != '/'
    ensures n > 0 ==> path[n - 1] == '/'
    decreases |path|
  {
    if |path| == 0 then 0
    else if path[|path| - 1] == '/' then |path|
    else
      var n := NameStart(path[..|path| - 1]);
      assert forall i :: n <= i < |path| - 1 ==> path[i] == path[..|path| - 1][i];
      n
  }

  /** The three facts above pin `NameStart` down. */
  lemma NameStartIs(path: string, n: nat)
    requires n <= |path|
    requires forall i :: n <= i < |path| ==> path[i] != '/'
    requires n > 0 ==> path[n - 1] == '/'
    ensures NameStart(path) == n
  {
  }

  /** `Path(path).name`: the text after the last `/`, or the whole path when
      it has none. The file dialog hands back `/`-separated paths on every
      platform. */
  function BaseName(path: string): (name: string)
    ensures '/' !in name
    ensures |name| <= |path| && (|name| == |path| || path[|path| - |name| - 1] == '/')
    ensures forall i :: 0 <= i < |name| ==> name[i] == path[|path| - |name| + i]
  {
    var n := NameStart(path);
    assert forall i :: 0 <= i < |path| - n ==> path[n..][i] == path[n + i];
    path[n..]
  }

  /** The name of a file in a directory is what follows the directory's
      separator. */
  lemma BaseNameOfChild(dir: string, name: string)
    requires '/' !in name
    ensures BaseName(dir + "/" + name) == name
  {
    var path := dir + "/" + name;
    forall i | |dir| + 1 <= i < |path| ensures path[i] != '/' {
      assert path[i] == name[i - |dir| - 1];
    }
    assert path[|dir|] == '/';
    NameStartIs(path, |dir| + 1);
    assert path[|dir| + 1..] == name;
  }

  /** One path returned by the file dialog, with the outcome of reading it:
      the file's bytes, or `None` when opening or reading it raised. */
  datatype ChosenFile = ChosenFile(path: string, contents: Option<Bytes>)

  /** The body of the `try` block for one chosen file: a record when the file
      was read and its bytes decode, nothing otherwise. */
  function Admit(decode: Decoder, f: ChosenFile): (r: Option<ImageRecord>)
    ensures r.Some? <==> f.contents.Some? && decode(f.contents.value).Some?
    ensures r.Some? ==> r.value.data == f.contents.value
    ensures r.Some? ==> r.value.source == FileSourcePrefix + BaseName(f.path)
    ensures r.Some? ==> decode(r.value.data) == Some(r.value.size)
  {
    match f.contents
    case None => None
    case Some(data) =>
      match decode(data)
      case None => None
      case Some(size) => Some(ImageRecord(data, FileSourcePrefix + BaseName(f.path), size))
  }

  /** A record that `select_image_file` may have added: labelled as coming
      from a file, with bytes that decode to its size. */
  ghost predicate FromFile(decode: Decoder, rec: ImageRecord) {
    StartsWith(rec.source, FileSourcePrefix) && decode(rec.data) == Some(rec.size)
  }

  /** The list after adding a batch of files, and the names of the files an
      error box was shown for, in the order shown. */
  datatype Ingested = Ingested(images: seq<ImageRecord>, failed: seq<string>)

  /** One turn of the loop in `select_image_file`: append the file's record,
      or report its name. */
  function AddFile(decode: Decoder, acc: Ingested, f: ChosenFile): (r: Ingested)
    ensures |r.images| + |r.failed| == |acc.images| + |acc.failed| + 1
    ensures |acc.images| <= |r.images| <= |acc.images| + 1 && r.images[..|acc.images|] == acc.images
    ensures |r.images| > |acc.images| ==> FromFile(decode, r.images[|acc.images|])
  {
    match Admit(decode, f)
    case Some(rec) =>
      assert rec.source[..|FileSourcePrefix|] == FileSourcePrefix;
      Ingested(acc.images + [rec], acc.failed)
    case None => Ingested(acc.images, acc.failed + [BaseName(f.path)])
  }

  /** `select_image_file` after the dialog returned `files`: each file in
      turn is read and decoded; those that succeed are appended, each failure
      reports the file's name and the loop goes on with the next file. */
  function SelectImageFiles(decode: Decoder, images: seq<ImageRecord>, files: seq<ChosenFile>): (r: Ingested)
    ensures |r.images| + |r.failed| == |images| + |files|
    ensures |images| <= |r.images| && r.images[..|images|] == images
    ensures forall k :: |images| <= k < |r.images| ==> FromFile(decode, r.images[k])
    decreases |files|
  {
    if |files| == 0 then Ingested(images, [])
    else
      var earlier := SelectImageFiles(decode, images, files[..|files| - 1]);
      var r := AddFile(decode, earlier, files[|files| - 1]);
      assert forall k :: |images| <= k < |earlier.images| ==> r.images[k] == earlier.images[k] by {
        forall k | |images| <= k < |earlier.images| ensures r.images[k] == earlier.images[k] {
          assert r.images[k] == r.images[..|earlier.images|][k];
        }
      }
      assert r.images[..|images|] == r.images[..|earlier.images|][..|images|];
      r
  }

  /** Names reported before a file is handled play no part in handling it. */
  lemma AddFileShift(decode: Decoder, images: seq<ImageRecord>, before: seq<string>, failed: seq<string>, f: ChosenFile)
    ensures var r := AddFile(decode, Ingested(images, failed), f);
            AddFile(decode, Ingested(images, before + failed), f) == Ingested(r.images, before + r.failed)
  {
    assert (before + failed) + [BaseName(f.path)] == before + (failed + [BaseName(f.path)]);
  }

  /** Choosing `a` and then `b` in one dialog is the same as adding `a` and
      then adding `b`: files are handled strictly in the order chosen. */
  lemma {:induction false} SelectImageFilesAppend(decode: Decoder, images: seq<ImageRecord>, a: seq<ChosenFile>, b: seq<ChosenFile>)
    ensures var first := SelectImageFiles(decode, images, a);
            var second := SelectImageFiles(decode, first.images, b);
            SelectImageFiles(decode, images, a + b) == Ingested(second.images, first.failed + second.failed)
    decreases |b|
  {
    if |b| == 0 {
      assert a + b == a;
    } else {
      var first := SelectImageFiles(decode, images, a);
      var mid := SelectImageFiles(decode, first.images, b[..|b| - 1]);
      assert (a + b)[..|a + b| - 1] == a + b[..|b| - 1];
      assert (a + b)[|a + b| - 1] == b[|b| - 1];
      SelectImageFilesAppend(decode, images, a, b[..|b| - 1]);
      assert SelectImageFiles(decode, images, a + b)
          == AddFile(decode, Ingested(mid.images, first.failed + mid.failed), b[|b| - 1]);
      assert SelectImageFiles(decode, first.images, b) == AddFile(decode, mid, b[|b| - 1]);
      AddFileShift(decode, mid.images, first.failed, mid.failed, b[|b| - 1]);
    }
  }

  /** A file that cannot be read or decoded adds nothing: the result is the
      one the other files give on their own, and its name is reported. */
  lemma SelectImageFilesSkipsFailure(decode: Decoder, images: seq<ImageRecord>, a: seq<ChosenFile>, f: ChosenFile, b: seq<ChosenFile>)
    requires Admit(decode, f).None?
    ensures SelectImageFiles(decode, images, a + [f] + b).images == SelectImageFiles(decode, images, a + b).images
    ensures |SelectImageFiles(decode, images, a + [f] + b).failed| == |SelectImageFiles(decode, images, a + b).failed| + 1
  {
    var first := SelectImageFiles(decode, images, a);
    SelectImageFilesAppend(decode, images, a + [f], b);
    SelectImageFilesAppend(decode, images, a, [f]);
    SelectImageFilesAppend(decode, images, a, b);
    assert [f][..0] == [];
    assert SelectImageFiles(decode, first.images, [f]) == Ingested(first.images, [BaseName(f.path)]);
  }

  /** The records of the chosen files that decode, in the order chosen. */
  function Admitted(decode: Decoder, files: seq<ChosenFile>): (r: seq<ImageRecord>)
    ensures |r| <= |files|
    decreases |files|
  {
    if |files| == 0 then []
    else
      var earlier := Admitted(decode, files[..|files| - 1]);
      match Admit(decode, files[|files| - 1])
      case Some(rec) => earlier + [rec]
      case None => earlier
  }

  /** The names of the chosen files that do not decode, in the order
      chosen. */
  function Unreadable(decode: Decoder, files: seq<ChosenFile>): (r: seq<string>)
    ensures |Admitted(decode, files)| + |r| == |files|
    decreases |files|
  {
    if |files| == 0 then []
    else
      var earlier := Unreadable(decode, files[..|files| - 1]);
      match Admit(decode, files[|files| - 1])
      case Some(_) => earlier
      case None => earlier + [BaseName(files[|files| - 1].path)]
  }

  /** Adding files appends exactly the records of the files that decode and
      reports exactly the names of those that do not, each in the order
      chosen. */
  lemma {:induction false} SelectImageFilesPartition(decode: Decoder, images: seq<ImageRecord>, files: seq<ChosenFile>)
    ensures SelectImageFiles(decode, images, files) == Ingested(images + Admitted(decode, files), Unreadable(decode, files))
    decreases |files|
  {
    if |files| == 0 {
      assert images + [] == images;
    } else {
      var init := files[..|files| - 1];
      var last := files[|files| - 1];
      var earlier := Ingested(images + Admitted(decode, init), Unreadable(decode, init));
      assert SelectImageFiles(decode, images, files) == AddFile(decode, earlier, last) by {
        SelectImageFilesPartition(decode, images, init);
      }
      match Admit(decode, last)
      case Some(rec) =>
        assert Admitted(decode, files) == Admitted(decode, init) + [rec];
        assert (images + Admitted(decode, init)) + [rec] == images + (Admitted(decode, init) + [rec]);
      case None =>
    }
  }

  /** When every chosen file decodes, there is one record per file, in the
      order chosen, and nothing is unreadable. */
  lemma {:induction false} AdmittedAll(decode: Decoder, files: seq<ChosenFile>)
    requires forall k :: 0 <= k < |files| ==> Admit(decode, files[k]).Some?
    ensures |Admitted(decode, files)| == |files| && Unreadable(decode, files) == []
    ensures forall k :: 0 <= k < |files| ==> Admitted(decode, files)[k] == Admit(decode, files[k]).value
    decreases |files|
  {
    if |files| > 0 {
      var init := files[..|files| - 1];
      assert forall k :: 0 <= k < |init| ==> init[k] == files[k];
      AdmittedAll(decode, init);
      assert Admit(decode, files[|files| - 1]).Some?;
    }
  }

  /** When every chosen file decodes, the list grows by exactly those files,
      one record each, in the order chosen, and no error is reported. */
  lemma SelectImageFilesAllDecode(decode: Decoder, images: seq<ImageRecord>, files: seq<ChosenFile>)
    requires forall k :: 0 <= k < |files| ==> Admit(decode, files[k]).Some?
    ensures var r := SelectImageFiles(decode, images, files);
            && |r.images| == |images| + |files| && r.failed == []
            && forall k :: 0 <= k < |files| ==> r.images[|images| + k] == Admit(decode, files[k]).value
  {
    SelectImageFilesPartition(decode, images, files);
    AdmittedAll(decode, files);
  }

  /** Adding files keeps the collection invariant. */
  lemma SelectImageFilesKeepsValid(decode: Decoder, images: seq<ImageRecord>, files: seq<ChosenFile>)
    requires Valid(decode, images)
    ensures Valid(decode, SelectImageFiles(decode, images, files).images)
  {
    var r := SelectImageFiles(decode, images, files).images;
    forall k | 0 <= k < |r| ensures decode(r[k].data) == Some(r[k].size) {
      if k < |images| { assert r[k] == r[..|images|][k]; } else { assert FromFile(decode, r[k]); }
    }
  }

  /* ------------------------------------------------------- from clipboard */

  const ClipboardSource: string := "剪贴板"
  const NoClipboardImageWarning: string := "剪贴板中没有图片数据"

  /** A raster picture as the clipboard grab returns it. */
  datatype Picture = Picture(size: Size, pixels: seq<int>)

  /** What grabbing the clipboard gave: no image, a picture, or an exception
      (the grab itself, or a clipboard holding something other than a
      picture, raises). */
  datatype Clipboard = NoImage | HasImage(picture: Picture) | GrabRaised

  /** Saving a picture as PNG: its bytes, or `None` when saving raises. */
  type Encoder = Picture -> Option<Bytes>

  /** Which message box, if any, a paste shows; the warning carries its
      text. */
  datatype PasteNotice = Pasted | EmptyClipboardWarning(message: string) | PasteError

  datatype PasteResult = PasteResult(images: seq<ImageRecord>, notice: PasteNotice)

  /** `paste_from_clipboard`: a picture on the clipboard is saved as PNG and
      appended as one record at the end; with no picture, or when grabbing or
      saving raises, the list is left as it was. */
  function PasteFromClipboard(images: seq<ImageRecord>, clip: Clipboard, encodePng: Encoder): (r: PasteResult)
    ensures r.notice == Pasted <==> clip.HasImage? && encodePng(clip.picture).Some?
    ensures r.notice.EmptyClipboardWarning? <==> clip.NoImage?
    ensures r.notice.EmptyClipboardWarning? ==> r.notice.message == NoClipboardImageWarning
    ensures r.notice != Pasted ==> r.images == images
    ensures r.notice == Pasted ==>
      && |r.images| == |images| + 1 && r.images[..|images|] == images
      && r.images[|images|].data == encodePng(clip.picture).value
      && r.images[|images|].source == ClipboardSource
      && r.images[|images|].size == clip.picture.size
  {
    match clip
    case NoImage => PasteResult(images, EmptyClipboardWarning(NoClipboardImageWarning))
    case GrabRaised => PasteResult(images, PasteError)
    case HasImage(p) =>
      match encodePng(p)
      case None => PasteResult(images, PasteError)
      case Some(png) => PasteResult(images + [ImageRecord(png, ClipboardSource, p.size)], Pasted)
  }

  /** Pasting keeps the collection invariant, provided the PNG the encoder
      writes for this picture decodes back to the picture's size. */
  lemma PasteFromClipboardKeepsValid(decode: Decoder, images: seq<ImageRecord>, clip: Clipboard, encodePng: Encoder)
    requires Valid(decode, images)
    requires clip.HasImage? && encodePng(clip.picture).Some? ==>
      decode(encodePng(clip.picture).value) == Some(clip.picture.size)
    ensures Valid(decode, PasteFromClipboard(images, clip, encodePng).images)
  {
    var r := PasteFromClipboard(images, clip, encodePng).images;
    forall k | 0 <= k < |r| ensures decode(r[k].data) == Some(r[k].size) {
      if k < |images| { assert r[k] == r[..|images|][k]; }
    }
  }

  /* ------------------------------------------------------ remove and clear */

  /** `remove_image(index)`: an index inside the list drops exactly that
      entry and shifts the later ones down by one; any other index, negative
      ones included, changes nothing. */
  function RemoveImage(images: seq<ImageRecord>, index: int): (r: seq<ImageRecord>)
    ensures 0 <= index < |images| ==>
      && |r| == |images| - 1
      && (forall j :: 0 <= j < index ==> r[j] == images[j])
      && (forall j :: index <= j < |r| ==> r[j] == images[j + 1])
    ensures !(0 <= index < |images|) ==> r == images
  {
    if 0 <= index < |images| then images[..index] + images[index + 1..] else images
  }

  /** Putting the removed entry back where it was restores the list, so
      removal loses exactly one entry and nothing else. */
  lemma RemoveImageThenReinsert(images: seq<ImageRecord>, index: int)
    requires 0 <= index < |images|
    ensures var r := RemoveImage(images, index);
            r[..index] + [images[index]] + r[index..] == images
    ensures multiset(RemoveImage(images, index)) + multiset{images[index]} == multiset(images)
  {
    var r := RemoveImage(images, index);
    assert r[..index] == images[..index];
    assert r[index..] == images[index + 1..];
    assert images == images[..index] + [images[index]] + images[index + 1..];
  }

  /** Removing an entry keeps the collection invariant. */
  lemma RemoveImageKeepsValid(decode: Decoder, images: seq<ImageRecord>, index: int)
    requires Valid(decode, images)
    ensures Valid(decode, RemoveImage(images, index))
  {
    var r := RemoveImage(images, index);
    forall k | 0 <= k < |r| ensures decode(r[k].data) == Some(r[k].size) {
      if 0 <= index < |images| && index <= k { assert r[k] == images[k + 1]; }
    }
  }

  /** `clear_all_images`: whatever the list held, it is empty afterwards. */
  function ClearAllImages(images: seq<ImageRecord>): (r: seq<ImageRecord>)
    ensures |r| == 0
  {
    []
  }
}
