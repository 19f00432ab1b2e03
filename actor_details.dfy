/**
 * The actor details page: the view state the component keeps (`loading`,
 * `error`, `actor`, `currentImageIndex`), the transitions the loader and the
 * carousel buttons make on it, and the page each state renders.
 */
module ActorDetails {
  import opened JsValues
  import Credits
  import Carousel
  import Labels

  /**
   * The person record the profile service resolves to, reduced to the fields
   * the page reads. `images` stands for the `file_path` of each entry of
   * `images.profiles`; it is absent when `images` or `profiles` is.
   */
  datatype Profile = Profile(
    name: string,
    placeOfBirth: Option<string>,
    gender: Option<int>,
    knownForDepartment: Option<string>,
    biography: Option<string>,
    profilePath: Option<string>,
    images: Option<seq<string>>,
    movieCast: Option<seq<Credits.Credit>>,
    tvCast: Option<seq<Credits.Credit>>)

  /** The large image: the selected gallery image, else the profile photo, else the placeholder. */
  datatype Hero = Gallery(filePath: string) | ProfilePhoto(path: string) | Placeholder

  /** What one render of the component produces. */
  datatype Page =
    | LoadingPage
    | ErrorPage(text: string)
    | NoActorPage
    | ProfilePage(
        name: string,
        hero: Hero,
        nationality: string,
        gender: string,
        knownFor: string,
        biography: string,
        movies: Credits.Section,
        shows: Credits.Section)
      /** The selected image is past the end of the gallery: reading its `file_path` throws. */
    | RenderFailure

  /** The message stored when the fetch rejects. */
  const LoadFailure: string := "Failed to load actor details."

  /** `actor.images?.profiles || []`. */
  function Images(p: Profile): seq<string> {
    if p.images.Some? then p.images.value else []
  }

  /** The selected image of the gallery, or the fallbacks when the gallery is empty. */
  function HeroImage(p: Profile, index: nat): (hero: Hero)
    requires |Images(p)| == 0 || index < |Images(p)|
    ensures hero.Gallery? <==> |Images(p)| > 0
    ensures hero.Gallery? ==> hero.filePath == Images(p)[index]
    ensures hero.ProfilePhoto? <==> |Images(p)| == 0 && Truthy(p.profilePath)
    ensures hero.ProfilePhoto? ==> hero.path == p.profilePath.value
  {
    if |Images(p)| > 0 then Gallery(Images(p)[index])
    else if Truthy(p.profilePath) then ProfilePhoto(p.profilePath.value)
    else Placeholder
  }

  /**
   * One render: the loading text first, then the error, then the missing
   * actor, and only then the profile.
   */
  function Render(loading: bool, error: Option<string>, actor: Option<Profile>, index: nat): (page: Page)
    ensures page.LoadingPage? <==> loading
    ensures page.ErrorPage? <==> !loading && Truthy(error)
    ensures page.ErrorPage? ==> page.text == "Error: " + error.value
    ensures page.NoActorPage? <==> !loading && !Truthy(error) && actor.None?
    ensures page.RenderFailure? <==>
      !loading && !Truthy(error) && actor.Some? && 0 < |Images(actor.value)| <= index
    ensures page.ProfilePage? ==> (page.hero.Gallery? <==> |Images(actor.value)| > 0)
  {
    if loading then LoadingPage
    else if Truthy(error) then ErrorPage("Error: " + error.value)
    else if actor.None? then NoActorPage
    else
      var p := actor.value;
      if 0 < |Images(p)| <= index then RenderFailure
      else
        ProfilePage(
          p.name,
          HeroImage(p, index),
          Labels.Nationality(p.placeOfBirth),
          Labels.GenderLabel(p.gender),
          OrElse(p.knownForDepartment, "Unknown"),
          OrElse(p.biography, "No biography available."),
          Credits.CreditsSection(Credits.Film, p.movieCast),
          Credits.CreditsSection(Credits.Tv, p.tvCast))
  }

  /** The component's state hooks. */
  class ActorDetailsView {
    var loading: bool
    var error: Option<string>
    var actor: Option<Profile>
    var imageIndex: nat

    /** The initial values of the four `useState` hooks. */
    constructor ()
      ensures loading && error == None && actor == None && imageIndex == 0
      ensures Current() == LoadingPage
    {
      loading := true;
      error := None;
      actor := None;
      imageIndex := 0;
    }

    /** The page the current state renders. */
    function Current(): Page
      reads this
    {
      Render(loading, error, actor, imageIndex)
    }

    /**
     * The fetch resolved: `setActor(data)`, then `setLoading(false)`. The error
     * of an earlier failed load is kept, so it still wins over the new data,
     * and the carousel index is kept too.
     */
    method LoadSucceeded(data: Option<Profile>)
      modifies this
      ensures actor == data && !loading
      ensures error == old(error) && imageIndex == old(imageIndex)
      ensures Truthy(old(error)) ==> Current() == ErrorPage("Error: " + old(error).value)
    {
      actor := data;
      loading := false;
    }

    /**
     * The fetch rejected: `setError(...)`, then `setLoading(false)`. The actor
     * of an earlier successful load is kept but no longer shown.
     */
    method LoadFailed()
      modifies this
      ensures error == Some(LoadFailure) && !loading
      ensures actor == old(actor) && imageIndex == old(imageIndex)
      ensures Current() == ErrorPage("Error: " + LoadFailure)
    {
      error := Some(LoadFailure);
      loading := false;
    }

    /** The `>` button, present only on the profile page and disabled while the gallery is empty. */
    method NextImage()
      requires Current().ProfilePage?
      modifies this`imageIndex
      ensures var n := |Images(actor.value)|;
        imageIndex == if n == 0 then old(imageIndex) else Carousel.Next(old(imageIndex), n)
      ensures Current().ProfilePage?
    {
      var n := |Images(actor.value)|;
      if n > 0 {
        imageIndex := Carousel.Next(imageIndex, n);
      }
    }

    /** The `<` button, present only on the profile page and disabled while the gallery is empty. */
    method PrevImage()
      requires Current().ProfilePage?
      modifies this`imageIndex
      ensures var n := |Images(actor.value)|;
        imageIndex == if n == 0 then old(imageIndex) else Carousel.Prev(old(imageIndex), n)
      ensures Current().ProfilePage?
    {
      var n := |Images(actor.value)|;
      if n > 0 {
        imageIndex := Carousel.Prev(imageIndex, n);
      }
    }
  }

  /**
   * The index is not reset when another actor loads: after two steps through
   * a three-image gallery, an actor with one image makes the next render fail.
   */
  method StaleIndexScenario(first: Profile, second: Profile) returns (page: Page)
    requires |Images(first)| == 3 && |Images(second)| == 1
    ensures page == RenderFailure
  {
    var view := new ActorDetailsView();
    view.LoadSucceeded(Some(first));
    view.NextImage();
    Carousel.NextSteps(0, 3);
    view.NextImage();
    Carousel.NextSteps(1, 3);
    view.LoadSucceeded(Some(second));
    page := view.Current();
  }

  /** The error is never cleared: a later successful load still renders the error. */
  method ErrorOutlivesLaterLoad(p: Profile) returns (page: Page)
    ensures page == ErrorPage("Error: " + LoadFailure)
  {
    var view := new ActorDetailsView();
    view.LoadFailed();
    view.LoadSucceeded(Some(p));
    page := view.Current();
  }
}
