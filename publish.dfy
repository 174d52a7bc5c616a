/**
 * The parts of a publish run's shared state that the Blogger service reads.
 * None stands for a null reference: a link the run did not produce, a chapter
 * without a name or volume, a release without a message.
 */
module Publish {
  import opened Wrappers

  datatype Info = Info(
    displayTitle: string,
    chapterNumber: string,
    chapterName: Option<string>,
    chapterVolume: Option<string>,
    message: Option<string>)

  datatype Links = Links(
    megaZip: Option<string>,
    megaPdf: Option<string>,
    boxZip: Option<string>,
    boxPdf: Option<string>,
    driveZip: Option<string>,
    drivePdf: Option<string>,
    mangaDexLink: Option<string>,
    boxPdfReader: Option<string>)

  datatype PublishState = PublishState(info: Info, links: Links)
}
