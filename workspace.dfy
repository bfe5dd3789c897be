/**
 * Staging of the submitted form into the request's workspace and the choice
 * of the question text (the first part of the `analyze` handler, main.py).
 *
 * The form is the sequence of `(field name, value)` pairs the handler walks.
 * A value is a file upload or a plain text field. Uploads with a non-empty
 * filename are written into the workspace under that filename and recorded
 * in `saved_files` under the filename; every other value is recorded under
 * its field name as it is. `saved_files` is a Python dict, so it remembers
 * the order in which its keys were first inserted.
 */
module Workspace {

  datatype Option<T> = None | Some(value: T)

  /** A form value: an uploaded file part, or a plain text field. */
  datatype FormValue = Upload(filename: string, content: string) | Text(text: string)

  datatype FormItem = FormItem(field: string, value: FormValue)

  /** What `saved_files` maps a key to: the staged file of that name in the workspace, or the raw form value. */
  datatype Staged = StagedFile(name: string) | Raw(value: FormValue)

  /** The outcome of question selection. */
  datatype Selection =
    | Chosen(text: string)      // the question text to send to synthesis
    | NoQuestion                // nothing supplied a question: the 400 reply
    | FallbackToUpload          // the fallback would open an upload without a filename, which is no path
    | FallbackToPath(path: string)  // the fallback would open a raw text value as a path

  /** The reserved name of the question file, compared after lower-casing. */
  const QuestionFileName := "questions.txt"

  /**
   * Lower-casing of one character. Only ASCII letters are mapped; for the
   * comparison with `QuestionFileName` this agrees with Python's `str.lower`,
   * since no other character lower-cases to one of the ASCII letters in it.
   */
  function LowerChar(c: char): char {
    if 'A' <= c <= 'Z' then (c as int - 'A' as int + 'a' as int) as char else c
  }

  function Lower(s: string): string {
    seq(|s|, i requires 0 <= i < |s| => LowerChar(s[i]))
  }

  /** An upload counts as a file only when it carries a non-empty filename. */
  predicate IsFile(v: FormValue) {
    v.Upload? && v.filename != ""
  }

  /** A file whose name is "questions.txt" in any letter case. */
  predicate IsQuestionFile(item: FormItem) {
    IsFile(item.value) && Lower(item.value.filename) == QuestionFileName
  }

  /** The `saved_files` key an item is stored under: the filename for files, the field name otherwise. */
  function KeyOf(item: FormItem): string {
    if IsFile(item.value) then item.value.filename else item.field
  }

  function StagedOf(item: FormItem): Staged {
    if IsFile(item.value) then StagedFile(item.value.filename) else Raw(item.value)
  }

  /** An insertion-ordered dictionary: `order` lists each key once, in the order it was first inserted. */
  datatype SavedFiles = SavedFiles(order: seq<string>, entries: map<string, Staged>) {

    ghost predicate Valid() {
      (forall i, j :: 0 <= i < j < |order| ==> order[i] != order[j]) &&
      (forall k :: k in entries <==> k in order)
    }

    /** `d[key] = value`: overwriting an existing key keeps its position; a new key goes last. */
    function Put(key: string, value: Staged): (d: SavedFiles)
      requires Valid()
      ensures d.Valid()
      ensures d.entries == entries[key := value]
      ensures key in entries ==> d.order == order
      ensures key !in entries ==> d.order == order + [key]
    {
      if key in entries then SavedFiles(order, entries[key := value])
      else SavedFiles(order + [key], entries[key := value])
    }
  }

  const NoFiles := SavedFiles([], map[])

  /** `saved_files` after the loop has walked `form`. */
  function SavedOf(form: seq<FormItem>): (d: SavedFiles)
    ensures d.Valid()
    ensures |d.order| <= |form|
    decreases |form|
  {
    if form == [] then NoFiles
    else
      var item := form[|form| - 1];
      SavedOf(form[..|form| - 1]).Put(KeyOf(item), StagedOf(item))
  }

  /** The files of the workspace after the loop has walked `form`: filename to content. */
  function FilesOf(form: seq<FormItem>): map<string, string>
    decreases |form|
  {
    if form == [] then map[]
    else
      var item := form[|form| - 1];
      var files := FilesOf(form[..|form| - 1]);
      if IsFile(item.value) then files[item.value.filename := item.value.content] else files
  }

  /** `question_text` after the loop has walked `form`. */
  function QuestionFileOf(form: seq<FormItem>): Option<string>
    decreases |form|
  {
    if form == [] then None
    else if IsQuestionFile(form[|form| - 1]) then Some(form[|form| - 1].value.content)
    else QuestionFileOf(form[..|form| - 1])
  }

  /** Every staged file entry names itself and exists in the workspace. */
  ghost predicate Linked(saved: SavedFiles, files: map<string, string>) {
    forall k :: k in saved.entries && saved.entries[k].StagedFile? ==>
      saved.entries[k].name == k && k in files
  }

  /**
   * The fallback rule: without a question file, the question is the content
   * of the file behind the first entry of `saved_files`, if there is one.
   */
  function Select(saved: SavedFiles, files: map<string, string>, question: Option<string>): (r: Selection)
    requires saved.Valid() && Linked(saved, files)
    ensures question.Some? ==> r == Chosen(question.value)
    ensures r == NoQuestion <==> question.None? && saved.entries == map[]
    ensures question.None? && saved.order != [] ==>
      var first := saved.order[0];
      (saved.entries[first].StagedFile? ==> first in files && r == Chosen(files[first])) &&
      (saved.entries[first].Raw? && saved.entries[first].value.Upload? ==> r == FallbackToUpload) &&
      (saved.entries[first].Raw? && saved.entries[first].value.Text? ==>
        r == FallbackToPath(saved.entries[first].value.text))
  {
    if question.Some? then Chosen(question.value)
    else if saved.order == [] then NoQuestion
    else
      match saved.entries[saved.order[0]]
      case StagedFile(name) => Chosen(files[name])
      case Raw(Upload(_, _)) => FallbackToUpload
      case Raw(Text(path)) => FallbackToPath(path)
  }

  /** The question the handler determines for `form`; there is none exactly when the form is empty. */
  function QuestionOf(form: seq<FormItem>): (r: Selection)
    ensures r == NoQuestion <==> form == []
  {
    StagingLinked(form);
    SavedFirstKey(form);
    Select(SavedOf(form), FilesOf(form), QuestionFileOf(form))
  }

  /** `i` is the last position of the form whose item is stored under its key. */
  ghost predicate LastWithKey(form: seq<FormItem>, i: int) {
    0 <= i < |form| && forall j :: i < j < |form| ==> KeyOf(form[j]) != KeyOf(form[i])
  }

  /** `i` is the last file upload of its filename. */
  ghost predicate LastFileNamed(form: seq<FormItem>, i: int) {
    0 <= i < |form| && IsFile(form[i].value) &&
    forall j :: i < j < |form| ==> !(IsFile(form[j].value) && form[j].value.filename == form[i].value.filename)
  }

  /** `i` is the last question file of the form. */
  ghost predicate LastQuestionFile(form: seq<FormItem>, i: int) {
    0 <= i < |form| && IsQuestionFile(form[i]) &&
    forall j :: i < j < |form| ==> !IsQuestionFile(form[j])
  }

  /**
   * The staging loop (main.py:37-50): writes every file into the workspace,
   * records every item in `saved_files`, and keeps the content of each
   * question file it meets.
   */
  method Stage(form: seq<FormItem>) returns (saved: SavedFiles, files: map<string, string>, question: Option<string>)
    ensures saved == SavedOf(form) && files == FilesOf(form) && question == QuestionFileOf(form)
  {
    saved, files, question := NoFiles, map[], None;
    for n := 0 to |form|
      invariant saved == SavedOf(form[..n])
      invariant files == FilesOf(form[..n])
      invariant question == QuestionFileOf(form[..n])
    {
      var item := form[n];
      assert form[..n + 1][..n] == form[..n];
      if IsFile(item.value) {
        var name := item.value.filename;
        files := files[name := item.value.content];
        saved := saved.Put(name, StagedFile(name));
        if Lower(name) == QuestionFileName {
          question := Some(files[name]);
        }
      } else {
        saved := saved.Put(item.field, Raw(item.value));
      }
    }
    assert form[..|form|] == form;
  }

  /** The staged value of a key is that of the last item stored under it. */
  lemma {:induction false} SavedLastWins(form: seq<FormItem>, i: int)
    requires LastWithKey(form, i)
    ensures KeyOf(form[i]) in SavedOf(form).entries
    ensures SavedOf(form).entries[KeyOf(form[i])] == StagedOf(form[i])
    decreases |form|
  {
    if i < |form| - 1 {
      var init := form[..|form| - 1];
      assert LastWithKey(init, i) by {
        forall j | i < j < |init| ensures KeyOf(init[j]) != KeyOf(init[i]) {
          assert init[j] == form[j];
        }
      }
      SavedLastWins(init, i);
    }
  }

  /** The keys of `saved_files` are exactly the keys of the form's items. */
  lemma {:induction false} SavedKeys(form: seq<FormItem>, k: string)
    ensures k in SavedOf(form).entries <==> exists i :: 0 <= i < |form| && KeyOf(form[i]) == k
    decreases |form|
  {
    if form != [] {
      var init, last := form[..|form| - 1], form[|form| - 1];
      SavedKeys(init, k);
      assert SavedOf(form).entries == SavedOf(init).entries[KeyOf(last) := StagedOf(last)];
      assert form == init + [last];
      KeyInSnoc(init, last, k);
    }
  }
  /** Some item of `init + [last]` has key `k` exactly when `last` does or some item of `init` does. */
  lemma KeyInSnoc(init: seq<FormItem>, last: FormItem, k: string)
    ensures (exists i :: 0 <= i < |init + [last]| && KeyOf((init + [last])[i]) == k) <==>
      (exists i :: 0 <= i < |init| && KeyOf(init[i]) == k) || KeyOf(last) == k
  {
    var form := init + [last];
    if exists i :: 0 <= i < |init| && KeyOf(init[i]) == k {
      var i :| 0 <= i < |init| && KeyOf(init[i]) == k;
      assert form[i] == init[i];
    }
    if exists i :: 0 <= i < |form| && KeyOf(form[i]) == k {
      var i :| 0 <= i < |form| && KeyOf(form[i]) == k;
      if i < |init| { assert init[i] == form[i]; }
    }
    if KeyOf(last) == k { assert form[|init|] == last; }
  }



  /** The first key of `saved_files` is the key of the first form item; later overwrites do not move it. */
  lemma {:induction false} SavedFirstKey(form: seq<FormItem>)
    ensures SavedOf(form).order == [] <==> form == []
    ensures form != [] ==> SavedOf(form).order[0] == KeyOf(form[0])
    decreases |form|
  {
    if form != [] {
      var init := form[..|form| - 1];
      SavedFirstKey(init);
      if init != [] { assert init[0] == form[0]; }
    }
  }

  /** The workspace holds its file name's content from the last upload of that name. */
  lemma {:induction false} FilesLastWins(form: seq<FormItem>, i: int)
    requires LastFileNamed(form, i)
    ensures form[i].value.filename in FilesOf(form)
    ensures FilesOf(form)[form[i].value.filename] == form[i].value.content
    decreases |form|
  {
    if i < |form| - 1 {
      var init := form[..|form| - 1];
      assert LastFileNamed(init, i) by {
        forall j | i < j < |init|
          ensures !(IsFile(init[j].value) && init[j].value.filename == init[i].value.filename)
        {
          assert init[j] == form[j];
        }
      }
      FilesLastWins(init, i);
    }
  }

  /** Every staged file entry of `saved_files` refers to a file present in the workspace. */
  lemma {:induction false} StagingLinked(form: seq<FormItem>)
    ensures Linked(SavedOf(form), FilesOf(form))
    decreases |form|
  {
    if form != [] {
      StagingLinked(form[..|form| - 1]);
    }
  }

  /** The question text without a question file is None exactly when the form has none. */
  lemma {:induction false} QuestionFileAbsent(form: seq<FormItem>)
    ensures QuestionFileOf(form).None? <==> forall i :: 0 <= i < |form| ==> !IsQuestionFile(form[i])
    decreases |form|
  {
    if form != [] {
      var init := form[..|form| - 1];
      QuestionFileAbsent(init);
      assert forall i :: 0 <= i < |init| ==> init[i] == form[i];
    }
  }

  /** The question text is the content of the last question file of the form. */
  lemma {:induction false} QuestionFileLastWins(form: seq<FormItem>, i: int)
    requires LastQuestionFile(form, i)
    ensures QuestionFileOf(form) == Some(form[i].value.content)
    decreases |form|
  {
    if i < |form| - 1 {
      var init := form[..|form| - 1];
      assert LastQuestionFile(init, i) by {
        forall j | i < j < |init| ensures !IsQuestionFile(init[j]) {
          assert init[j] == form[j];
        }
      }
      QuestionFileLastWins(init, i);
    }
  }

  /**
   * With a question file present, the question is the content of the last
   * one in form order, whatever else the form holds.
   */
  lemma QuestionFromQuestionFile(form: seq<FormItem>, i: int)
    requires LastQuestionFile(form, i)
    ensures QuestionOf(form) == Chosen(form[i].value.content)
  {
    QuestionFileLastWins(form, i);
  }

  /**
   * Without a question file, the question comes from the first key of
   * `saved_files`, the key of the first item; its value is that of the last
   * item stored under the same key. If that item is a file, the question is
   * its content; otherwise the fallback would open a raw value.
   */
  lemma QuestionFromFirstEntry(form: seq<FormItem>, j: int)
    requires forall i :: 0 <= i < |form| ==> !IsQuestionFile(form[i])
    requires LastWithKey(form, j) && KeyOf(form[j]) == KeyOf(form[0])
    ensures IsFile(form[j].value) ==> QuestionOf(form) == Chosen(form[j].value.content)
    ensures !IsFile(form[j].value) ==>
      QuestionOf(form) == if form[j].value.Upload? then FallbackToUpload else FallbackToPath(form[j].value.text)
  {
    QuestionFileAbsent(form);
    SavedFirstKey(form);
    SavedLastWins(form, j);
    if IsFile(form[j].value) {
      assert LastFileNamed(form, j) by {
        forall k | j < k < |form|
          ensures !(IsFile(form[k].value) && form[k].value.filename == form[j].value.filename)
        {
          assert KeyOf(form[k]) != KeyOf(form[j]);
        }
      }
      FilesLastWins(form, j);
    }
  }
}
