/**
 * The slug fields of the two content-studio document types. A post and a
 * category both derive their slug from their title through the same
 * `slugify` option, defined once in `Slug`.
 */
module Schema {
  import Slug

  datatype DocumentType = Post | Category

  /** The `slugify` option of the slug field of `doc`, applied to a title. */
  function SlugOf(doc: DocumentType, title: string): (slug: string)
    ensures Slug.IsSlug(slug)
  {
    match doc
    case Post => Slug.Slugify(title)
    case Category => Slug.Slugify(title)
  }

  /** A category titled like a post gets the same slug as that post. */
  lemma CategorySlugMatchesPost(title: string)
    ensures SlugOf(Category, title) == SlugOf(Post, title)
  {
  }

  /** Regenerating a slug from a slug leaves it as it is, for either document type. */
  lemma SlugOfSlug(doc: DocumentType, title: string)
    ensures SlugOf(doc, SlugOf(doc, title)) == SlugOf(doc, title)
  {
    Slug.SlugifyIdempotent(title);
  }

  /** An apostrophe in a title is deleted without leaving a hyphen, for either document type. */
  lemma SlugDropsApostrophe(doc: DocumentType, before: string, after: string)
    ensures SlugOf(doc, before + "'" + after) == SlugOf(doc, before + after)
  {
    Slug.ApostropheDeleted(before, after);
  }

  /** The slug keeps exactly the title's letters and digits, lower-cased, in order. */
  lemma SlugSpellsTitle(doc: DocumentType, title: string)
    ensures Slug.RemoveHyphens(SlugOf(doc, title)) == Slug.KeepAlnum(Slug.Lower(title))
  {
    Slug.SlugKeepsAlnum(title);
  }

  /** The slug is empty exactly for titles without a letter or digit, such as "!!!" or "---". */
  lemma SlugEmptyIff(doc: DocumentType, title: string)
    ensures SlugOf(doc, title) == [] <==> forall i :: 0 <= i < |title| ==> !Slug.IsAlnum(Slug.LowerChar(title[i]))
  {
    Slug.SlugEmptyIff(title);
  }
}
