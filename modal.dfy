/** The testimonials modal: `testimonialsModalFunc` toggles the modal container and the
    overlay, and a testimonial's click copies its avatar, title and text into the modal first. */
module Modal {
  import opened Wrappers

  /** An image's src and alt. */
  datatype Avatar = Avatar(src: string, alt: string)

  /** A `[data-testimonials-item]`: its avatar, title markup and text markup, each None when
      the item has no such element. */
  datatype Testimonial = Testimonial(avatar: Option<Avatar>, title: Option<string>, text: Option<string>)

  class TestimonialsModal {
    /** Which of the modal's elements exist. */
    const hasContainer: bool
    const hasOverlay: bool
    const hasImage: bool
    const hasTitle: bool
    const hasText: bool
    /** Whether the container and the overlay carry `active`. */
    var containerActive: bool
    var overlayActive: bool
    /** What the modal shows: the image's src/alt and the title's and text's innerHTML. */
    var image: Avatar
    var titleHtml: string
    var textHtml: string

    /** The container and the overlay, when both exist, are shown together. */
    ghost predicate Lockstep()
      reads this
    {
      hasContainer && hasOverlay ==> containerActive == overlayActive
    }

    constructor (hasContainer: bool, hasOverlay: bool, hasImage: bool, hasTitle: bool, hasText: bool,
                 containerActive: bool, overlayActive: bool,
                 image: Avatar, titleHtml: string, textHtml: string)
      ensures this.hasContainer == hasContainer && this.hasOverlay == hasOverlay
      ensures this.hasImage == hasImage && this.hasTitle == hasTitle && this.hasText == hasText
      ensures this.containerActive == containerActive && this.overlayActive == overlayActive
      ensures this.image == image && this.titleHtml == titleHtml && this.textHtml == textHtml
    {
      this.hasContainer, this.hasOverlay := hasContainer, hasOverlay;
      this.hasImage, this.hasTitle, this.hasText := hasImage, hasTitle, hasText;
      this.containerActive, this.overlayActive := containerActive, overlayActive;
      this.image, this.titleHtml, this.textHtml := image, titleHtml, textHtml;
    }

    /** testimonialsModalFunc, also the listener of the close button and of the overlay:
        flip each of the two flags whose element exists; the content stays. */
    method Toggle()
      modifies this
      ensures containerActive == if hasContainer then !old(containerActive) else old(containerActive)
      ensures overlayActive == if hasOverlay then !old(overlayActive) else old(overlayActive)
      ensures image == old(image) && titleHtml == old(titleHtml) && textHtml == old(textHtml)
      ensures old(Lockstep()) ==> Lockstep()
    {
      if hasContainer {
        containerActive := !containerActive;
      }
      if hasOverlay {
        overlayActive := !overlayActive;
      }
    }

    /** The click listener of a testimonial: copy each field whose source element and
        modal element both exist, leave the others, then toggle. */
    method ItemClick(item: Testimonial)
      modifies this
      ensures image == if hasImage && item.avatar.Some? then item.avatar.value else old(image)
      ensures titleHtml == if hasTitle && item.title.Some? then item.title.value else old(titleHtml)
      ensures textHtml == if hasText && item.text.Some? then item.text.value else old(textHtml)
      ensures containerActive == if hasContainer then !old(containerActive) else old(containerActive)
      ensures overlayActive == if hasOverlay then !old(overlayActive) else old(overlayActive)
      ensures old(Lockstep()) ==> Lockstep()
    {
      if hasImage && item.avatar.Some? {
        image := Avatar(item.avatar.value.src, item.avatar.value.alt);
      }
      if hasTitle && item.title.Some? {
        titleHtml := item.title.value;
      }
      if hasText && item.text.Some? {
        textHtml := item.text.value;
      }
      Toggle();
    }
  }
}
