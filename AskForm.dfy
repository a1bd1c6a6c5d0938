/** The ask page (app/ask/page.tsx): the tag editor, the image list and the submit check, as the
    state the page's handlers replace step by step. */
module AskForm {
  import opened Wrappers
  import opened Records
  import Seqs
  import Text
  import QuestionModel
  import QuestionsRoute

  const MaxTags := 5

  /** The tag list the editor maintains: at most five tags, no duplicates, each trimmed and
      non-empty. */
  predicate TagsOk(tags: seq<string>) {
    && |tags| <= MaxTags
    && Seqs.NoDup(tags)
    && forall i :: 0 <= i < |tags| ==> tags[i] != "" && Text.Trim(tags[i]) == tags[i]
  }

  /** A picked file: an opaque handle, the id the page generated for it and its object-URL preview. */
  datatype UploadedImage = UploadedImage(id: string, file: nat, preview: string)

  /** The images one upload adds, in the order the files were picked. The generated ids and the
      object URLs are parameters. */
  function Uploads(files: seq<nat>, ids: seq<string>, previews: seq<string>): (r: seq<UploadedImage>)
    requires |ids| == |files| && |previews| == |files|
    ensures |r| == |files|
    ensures forall k :: 0 <= k < |r| ==> r[k] == UploadedImage(ids[k], files[k], previews[k])
  {
    seq(|files|, k requires 0 <= k < |files| => UploadedImage(ids[k], files[k], previews[k]))
  }

  /** The list after removing the image with id `imageId`. */
  function WithoutImage(images: seq<UploadedImage>, imageId: string): (r: seq<UploadedImage>)
    ensures forall k :: 0 <= k < |r| ==> r[k].id != imageId && r[k] in images
    ensures forall k :: 0 <= k < |images| && images[k].id != imageId ==> images[k] in r
  {
    var keep := (img: UploadedImage) => img.id != imageId;
    Seqs.FilterMembers(images, keep);
    Seqs.Filter(images, keep)
  }

  /** The first image with the given id, whose preview URL is revoked (`images.find`). */
  function FindImage(images: seq<UploadedImage>, imageId: string): (r: Option<UploadedImage>)
    ensures r.None? <==> forall k :: 0 <= k < |images| ==> images[k].id != imageId
    ensures r.Some? ==> exists k :: 0 <= k < |images| && images[k] == r.value && r.value.id == imageId
                          && forall j :: 0 <= j < k ==> images[j].id != imageId
  {
    if images == [] then None
    else if images[0].id == imageId then Some(images[0])
    else
      var r := FindImage(images[1..], imageId);
      if r.Some? then
        var k :| 0 <= k < |images| - 1 && images[1..][k] == r.value && r.value.id == imageId
                 && forall j :: 0 <= j < k ==> images[1..][j].id != imageId;
        assert images[k + 1] == r.value;
        r
      else r
  }

  /** Distinct ids: removing an image by id then deletes exactly that image, in place. */
  lemma RemoveImageInPlace(images: seq<UploadedImage>, k: nat)
    requires k < |images|
    requires forall i, j :: 0 <= i < j < |images| ==> images[i].id != images[j].id
    ensures WithoutImage(images, images[k].id) == images[..k] + images[k + 1..]
  {
    var id := images[k].id;
    Seqs.FilterOutOne(images, (img: UploadedImage) => img.id != id, k);
  }

  /** Removing a freshly uploaded image restores the list as it was before the upload. */
  lemma RemoveUndoesUpload(images: seq<UploadedImage>, img: UploadedImage)
    requires forall k :: 0 <= k < |images| ==> images[k].id != img.id
    ensures WithoutImage(images + [img], img.id) == images
  {
    var p := (x: UploadedImage) => x.id != img.id;
    Seqs.FilterAppend(images, [img], p);
    Seqs.FilterKeepsAll(images, p);
    assert Seqs.Filter([img], p) == [];
  }

  /** The tag list after removing `tag` (`tags.filter(t => t !== tag)`). */
  function WithoutTag(tags: seq<string>, tag: string): (r: seq<string>)
    ensures tag !in r
    ensures forall k :: 0 <= k < |r| ==> r[k] in tags
    ensures forall k :: 0 <= k < |tags| && tags[k] != tag ==> tags[k] in r
  {
    var keep := (t: string) => t != tag;
    Seqs.FilterMembers(tags, keep);
    Seqs.Filter(tags, keep)
  }

  /** Removing a tag keeps the editor's invariant, and in a duplicate-free list it deletes exactly
      that tag in place. */
  lemma RemoveTagInPlace(tags: seq<string>, k: nat)
    requires TagsOk(tags) && k < |tags|
    ensures WithoutTag(tags, tags[k]) == tags[..k] + tags[k + 1..]
    ensures TagsOk(WithoutTag(tags, tags[k]))
  {
    var tag := tags[k];
    var p := (t: string) => t != tag;
    Seqs.FilterOutOne(tags, p, k);
    Seqs.FilterNoDup(tags, p);
  }

  /** The body the page posts: the title and content as typed, the tags, the preview URLs. */
  function SubmittedBody(title: string, content: string, tags: seq<string>, images: seq<UploadedImage>): (b: QuestionsRoute.QuestionBody)
    ensures b.title == Some(title) && b.content == Some(content) && b.tags == Some(tags)
    ensures b.images.Some? && |b.images.value| == |images|
    ensures forall k :: 0 <= k < |images| ==> b.images.value[k] == images[k].preview
  {
    QuestionsRoute.QuestionBody(Some(title), Some(content), Some(tags),
      Some(seq(|images|, k requires 0 <= k < |images| => images[k].preview)))
  }

  /** What the page lets through, the route accepts: the required fields are there, and the only
      refusal left for a signed-in user is the schema's title limit, which the page does not check. */
  lemma SubmittedBodyAccepted(user: Id, title: string, content: string, tags: seq<string>, images: seq<UploadedImage>, newId: Id, now: int)
    requires TagsOk(tags) && tags != []
    requires !Text.IsBlank(title) && !Text.IsBlank(content)
    ensures QuestionsRoute.HasRequiredFields(SubmittedBody(title, content, tags, images))
    ensures QuestionsRoute.Post(Some(user), SubmittedBody(title, content, tags, images), newId, now).Created?
            <==> |title| <= QuestionModel.MaxTitleLength
  {
    var body := SubmittedBody(title, content, tags, images);
    assert title != [] && content != [];
    assert Present(body.title) && Present(body.content);
    QuestionsRoute.PostServerErrorIff(user, body, newId, now);
  }

  /** The page's form state. */
  class AskPage {
    var title: string
    var content: string
    var tagInput: string
    var tags: seq<string>
    var images: seq<UploadedImage>
    var isUploading: bool
    var isSubmitting: bool

    ghost predicate Valid()
      reads this
    {
      TagsOk(tags)
    }

    constructor ()
      ensures Valid()
      ensures title == "" && content == "" && tagInput == "" && tags == [] && images == []
      ensures !isUploading && !isSubmitting
    {
      title, content, tagInput, tags, images := "", "", "", [], [];
      isUploading, isSubmitting := false, false;
    }

    /** `handleAddTag`: on Enter, the trimmed input joins the tags when it is not blank, not
        already a tag and fewer than five tags exist; then the input clears. Otherwise nothing
        changes. */
    method AddTag(key: string)
      requires Valid()
      modifies this`tags, this`tagInput
      ensures Valid()
      ensures var t := Text.Trim(old(tagInput));
        if key == "Enter" && t != "" && t !in old(tags) && |old(tags)| < MaxTags
        then tags == old(tags) + [t] && tagInput == ""
        else tags == old(tags) && tagInput == old(tagInput)
    {
      var t := Text.Trim(tagInput);
      if key == "Enter" && t != "" {
        if t !in tags && |tags| < MaxTags {
          Text.TrimIdempotent(tagInput);
          tags := tags + [t];
          tagInput := "";
        }
      }
    }

    /** `handleRemoveTag`. */
    method RemoveTag(tag: string)
      requires Valid()
      modifies this`tags
      ensures Valid()
      ensures tags == WithoutTag(old(tags), tag)
    {
      Seqs.FilterNoDup(tags, (t: string) => t != tag);
      tags := WithoutTag(tags, tag);
    }

    /** `handleImageUpload`: an empty selection changes nothing; otherwise one image per file,
        built in a loop, goes after the existing ones. */
    method UploadImages(files: seq<nat>, ids: seq<string>, previews: seq<string>)
      requires |ids| == |files| && |previews| == |files|
      modifies this`images, this`isUploading
      ensures files == [] ==> images == old(images) && isUploading == old(isUploading)
      ensures files != [] ==> images == old(images) + Uploads(files, ids, previews) && !isUploading
    {
      if files == [] {
        return;
      }
      isUploading := true;
      var newImages: seq<UploadedImage> := [];
      var i := 0;
      while i < |files|
        invariant 0 <= i <= |files|
        invariant |newImages| == i
        invariant forall k :: 0 <= k < i ==> newImages[k] == UploadedImage(ids[k], files[k], previews[k])
      {
        newImages := newImages + [UploadedImage(ids[i], files[i], previews[i])];
        i := i + 1;
      }
      images := images + newImages;
      isUploading := false;
    }

    /** `handleRemoveImage`: the preview of the first image with that id is revoked (returned
        here), and every image with that id leaves the list. */
    method RemoveImage(imageId: string) returns (revoked: Option<string>)
      modifies this`images
      ensures images == WithoutImage(old(images), imageId)
      ensures var found := FindImage(old(images), imageId);
              revoked == if found.Some? then Some(found.value.preview) else None
    {
      var found := FindImage(images, imageId);
      revoked := if found.Some? then Some(found.value.preview) else None;
      images := WithoutImage(images, imageId);
    }

    /** `handleSubmit` up to the request: a blank title or content, or no tags, stops it with
        nothing changed; otherwise the page is submitting and posts the body. */
    method Submit() returns (request: Option<QuestionsRoute.QuestionBody>)
      modifies this`isSubmitting
      ensures Text.IsBlank(title) || Text.IsBlank(content) || tags == [] ==>
        request == None && isSubmitting == old(isSubmitting)
      ensures !(Text.IsBlank(title) || Text.IsBlank(content) || tags == []) ==>
        request == Some(SubmittedBody(title, content, tags, images)) && isSubmitting
    {
      if Text.IsBlank(title) || Text.IsBlank(content) || tags == [] {
        return None;
      }
      isSubmitting := true;
      request := Some(SubmittedBody(title, content, tags, images));
    }

    /** The `finally` of `handleSubmit`: whatever the reply, the page is no longer submitting. */
    method SubmitSettled()
      modifies this`isSubmitting
      ensures !isSubmitting
    {
      isSubmitting := false;
    }
  }
}
